/**
 * The DATA phase: streaming dot-stuffing (`src/internal/smtp/transaction.ts`)
 * and its framing (`src/internal/smtp/session.ts`), against receivers that undo
 * it (section 4.5.2 of RFC 5321).
 */
module DataPhase {
  import opened Common

  // ------------------------------------------------------------ the sender

  /** `d` with a dot added before each dot that starts a line. */
  function Stuff(d: Bytes, atLineStart: bool): (r: Bytes)
    ensures |r| >= |d|
  {
    if d == [] then []
    else (if atLineStart && d[0] == DOT then [DOT] else []) + [d[0]] + Stuff(d[1..], d[0] == LF)
  }

  /** Whether the byte after `d` starts a line. */
  function LineStartAfter(d: Bytes, atLineStart: bool): bool {
    if d == [] then atLineStart else d[|d| - 1] == LF
  }

  predicate EndsWithCrlf(d: Bytes) { |d| >= 2 && d[|d| - 2] == CR && d[|d| - 1] == LF }

  /** What completes the last line of the payload. */
  function Padding(d: Bytes): Bytes { if d == [] || EndsWithCrlf(d) then [] else CRLF }

  const FINAL_DOT: Bytes := [DOT, CR, LF]

  lemma LineStartMoves(a: Bytes, atLineStart: bool)
    requires a != []
    ensures LineStartAfter(a, atLineStart) == LineStartAfter(a[1..], a[0] == LF)
  {
  }

  lemma {:induction false} StuffAppend(a: Bytes, b: Bytes, atLineStart: bool)
    ensures Stuff(a + b, atLineStart) == Stuff(a, atLineStart) + Stuff(b, LineStartAfter(a, atLineStart))
  {
    if a == [] {
      assert a + b == b;
    } else {
      hide LineStartAfter;
      assert (a + b)[1..] == a[1..] + b;
      StuffAppend(a[1..], b, a[0] == LF);
      LineStartMoves(a, atLineStart);
    }
  }

  /** `dotStuff`: counts first, then fills a buffer of the exact size. */
  method DotStuff(data: Bytes) returns (r: Bytes)
    ensures r == Stuff(data, true)
  {
    hide Stuff;
    StuffNothing(true);
    var count := 0;
    var atLineStart := true;
    for k := 0 to |data|
      invariant atLineStart == LineStartAfter(data[..k], true)
      invariant |Stuff(data[..k], true)| == k + count && count >= 0
      invariant count == 0 ==> Stuff(data[..k], true) == data[..k]
    {
      StuffNext(data, k, true);
      if atLineStart && data[k] == DOT { count := count + 1; }
      atLineStart := data[k] == LF;
    }
    assert data[..|data|] == data;
    if count == 0 { return data; }

    var result := new byte[|data| + count](_ => 0);
    var index := 0;
    atLineStart := true;
    for k := 0 to |data|
      invariant atLineStart == LineStartAfter(data[..k], true)
      invariant index == |Stuff(data[..k], true)| && index <= result.Length
      invariant result[..index] == Stuff(data[..k], true)
    {
      StuffNext(data, k, true);
      StuffPrefixFits(data, k + 1);
      if atLineStart && data[k] == DOT {
        result[index] := DOT;
        index := index + 1;
      }
      result[index] := data[k];
      index := index + 1;
      atLineStart := data[k] == LF;
    }
    r := result[..];
  }

  lemma StuffNext(d: Bytes, k: nat, atLineStart: bool)
    requires k < |d|
    ensures var start := LineStartAfter(d[..k], atLineStart);
      Stuff(d[..k + 1], atLineStart)
      == Stuff(d[..k], atLineStart) + (if start && d[k] == DOT then [DOT] + [d[k]] else [d[k]])
    ensures LineStartAfter(d[..k + 1], atLineStart) == (d[k] == LF)
    ensures d[..k + 1] == d[..k] + [d[k]]
  {
    assert d[..k + 1] == d[..k] + [d[k]];
    StuffAppend(d[..k], [d[k]], atLineStart);
    StuffOne(d[k], LineStartAfter(d[..k], atLineStart));
  }

  lemma StuffOne(b: byte, atLineStart: bool)
    ensures Stuff([b], atLineStart) == if atLineStart && b == DOT then [DOT, DOT] else [b]
  {
  }

  lemma StuffPrefixFits(d: Bytes, k: nat)
    requires k <= |d|
    ensures |Stuff(d[..k], true)| <= |Stuff(d, true)|
  {
    assert d == d[..k] + d[k..];
    StuffAppend(d[..k], d[k..], true);
  }

  /** `dotStuffChunk`: copies the chunk only once a dot has to be added. */
  method DotStuffChunk(chunk: Bytes, atLineStart: bool) returns (data: Bytes, next: bool)
    ensures data == Stuff(chunk, atLineStart)
    ensures next == LineStartAfter(chunk, atLineStart)
  {
    hide Stuff;
    var output: Option<Bytes> := None;
    next := atLineStart;
    StuffNothing(atLineStart);
    for k := 0 to |chunk|
      invariant next == LineStartAfter(chunk[..k], atLineStart)
      invariant Stuff(chunk[..k], atLineStart) == if output.Some? then output.value else chunk[..k]
    {
      StuffNext(chunk, k, atLineStart);
      if next && chunk[k] == DOT {
        if output.None? { output := Some(chunk[..k]); }
        output := Some(output.value + [DOT]);
      }
      if output.Some? { output := Some(output.value + [chunk[k]]); }
      next := chunk[k] == LF;
    }
    assert chunk[..|chunk|] == chunk;
    data := if output.Some? then output.value else chunk;
  }

  lemma StuffNothing(atLineStart: bool)
    ensures Stuff([], atLineStart) == []
  {
  }

  datatype DataOutcome = Accepted | DataRefused | MessageRefused

  predicate IsSuccess(code: int) { 200 <= code < 300 }

  predicate IsIntermediate(code: int) { 300 <= code < 400 }

  lemma NothingSent()
    ensures Joined([]) == [] && Stuff([], true) == [] && LineStartAfter([], true) && Last([]) == Previous([]) == 0
  {
  }

  function Last(d: Bytes): byte { if d == [] then 0 else d[|d| - 1] }

  function Previous(d: Bytes): byte { if |d| < 2 then 0 else d[|d| - 2] }

  /** The last two octets once `b` has followed `a`, as the loop keeps them. */
  lemma LastTwo(a: Bytes, b: Bytes)
    requires b != []
    ensures Last(a + b) == b[|b| - 1] && Previous(a + b) == if |b| >= 2 then b[|b| - 2] else Last(a)
  {
  }

  lemma EndsByLastTwo(d: Bytes)
    ensures EndsWithCrlf(d) <==> d != [] && Previous(d) == CR && Last(d) == LF
  {
  }

  /**
   * `sendData` after the DATA command was written: `goAhead` answers it,
   * `verdict` answers the final dot. `wire` is everything written in between.
   */
  method SendData(chunks: seq<Bytes>, goAhead: int, verdict: int) returns (wire: Bytes, outcome: DataOutcome)
    ensures !IsIntermediate(goAhead) ==> outcome == DataRefused && wire == []
    ensures IsIntermediate(goAhead) ==> outcome == if IsSuccess(verdict) then Accepted else MessageRefused
    ensures IsIntermediate(goAhead) ==> wire == Framed(Joined(chunks))
  {
    wire := [];
    if !IsIntermediate(goAhead) { return wire, DataRefused; }
    hide Stuff, LineStartAfter, Joined, Last, Previous, EndsWithCrlf;
    NothingSent();
    assert chunks[..0] == [];
    var atLineStart := true;
    var previous: byte := 0;
    var last: byte := 0;
    var wrote := false;
    for k := 0 to |chunks|
      invariant var sent := Joined(chunks[..k]);
        && wire == Stuff(sent, true)
        && atLineStart == LineStartAfter(sent, true)
        && wrote == (sent != [])
        && last == Last(sent) && previous == Previous(sent)
    {
      var chunk := chunks[k];
      ghost var sent := Joined(chunks[..k]);
      JoinedNext(chunks, k);
      StuffAppend(sent, chunk, true);
      var data, next := DotStuffChunk(chunk, atLineStart);
      atLineStart := next;
      if |chunk| > 0 {
        LastTwo(sent, chunk);
        previous := if |chunk| >= 2 then chunk[|chunk| - 2] else last;
        last := chunk[|chunk| - 1];
        wrote := true;
      } else {
        assert sent + chunk == sent;
      }
      wire := wire + data;
    }
    assert chunks[..|chunks|] == chunks;
    EndsByLastTwo(Joined(chunks));
    assert wire + [] == wire;
    if wrote && (previous != CR || last != LF) { wire := wire + CRLF; }
    wire := wire + FINAL_DOT;
    outcome := if IsSuccess(verdict) then Accepted else MessageRefused;
  }

  /** Everything `sendData` writes for the payload `d`. */
  function Framed(d: Bytes): Bytes { Stuff(d, true) + Padding(d) + FINAL_DOT }

  // ---------------------------------------------------------- the receivers

  /**
   * The length of the first line of `w` with its terminator, 0 when it is not
   * complete. A strict receiver ends lines at CRLF only, a lenient one at LF.
   */
  function LineLength(w: Bytes, strict: bool): (n: nat)
    ensures n <= |w|
  {
    if w == [] then 0
    else if !strict && w[0] == LF then 1
    else if strict && |w| >= 2 && w[0] == CR && w[1] == LF then 2
    else
      var n := LineLength(w[1..], strict);
      if n == 0 then 0 else n + 1
  }

  datatype Received = Received(message: Bytes, rest: Bytes)

  predicate IsFinalLine(line: Bytes, strict: bool) {
    line == FINAL_DOT || (!strict && line == [DOT, LF])
  }

  function WithoutDot(line: Bytes): Bytes { if line != [] && line[0] == DOT then line[1..] else line }

  /** Reads lines up to the final dot; `None` while it has not arrived. */
  function Receive(w: Bytes, strict: bool): Option<Received>
    decreases |w|
  {
    var n := LineLength(w, strict);
    if n == 0 then None
    else if IsFinalLine(w[..n], strict) then Some(Received([], w[n..]))
    else
      var after := Receive(w[n..], strict);
      if after.None? then None
      else Some(Received(WithoutDot(w[..n]) + after.value.message, after.value.rest))
  }

  /** What a receiver makes of the body `b`: it takes back the dot of each of its own lines only. */
  function Seen(b: Bytes, strict: bool): Bytes
    decreases |b|
  {
    var n := LineLength(b, strict);
    if n == 0 then [] else Stuff(b[..n], false) + Seen(b[n..], strict)
  }

  /** `b` is empty or consists of complete lines. */
  predicate Complete(b: Bytes, strict: bool) { b == [] || (b[|b| - 1] == LF && (strict ==> EndsWithCrlf(b))) }

  lemma {:induction false} CompleteHasLine(b: Bytes, strict: bool)
    requires Complete(b, strict) && b != []
    ensures LineLength(b, strict) > 0 && Complete(b[LineLength(b, strict)..], strict)
  {
    if !strict && b[0] == LF {
    } else if strict && |b| >= 2 && b[0] == CR && b[1] == LF {
      assert |b| != 3;
    } else {
      assert b[1..] != [];
      CompleteHasLine(b[1..], strict);
      assert b[1..][LineLength(b[1..], strict)..] == b[LineLength(b, strict)..];
    }
  }

  /** Stuffing one complete line keeps it one complete line. */
  lemma {:induction false} StuffedLine(line: Bytes, atLineStart: bool, after: Bytes, strict: bool)
    requires line != [] && LineLength(line, strict) == |line|
    ensures LineLength(Stuff(line, atLineStart) + after, strict) == |Stuff(line, atLineStart)|
    ensures LineStartAfter(line, atLineStart)
  {
    var s := Stuff(line, atLineStart);
    if |line| == 1 || (strict && |line| == 2 && line[0] == CR && line[1] == LF) {
      StuffTwo(line, atLineStart);
    } else {
      StuffedLine(line[1..], line[0] == LF, after, strict);
      var rest := Stuff(line[1..], line[0] == LF) + after;
      FirstStuffed(line[1..], line[0] == LF);
      assert (s + after)[|s| - |Stuff(line[1..], line[0] == LF)|..] == rest;
      if atLineStart && line[0] == DOT {
        assert (s + after)[1..] == [DOT] + rest;
        assert (s + after)[1..][1..] == rest;
      } else {
        assert (s + after)[1..] == rest;
      }
    }
  }

  lemma FirstStuffed(d: Bytes, atLineStart: bool)
    requires d != []
    ensures Stuff(d, atLineStart)[0] == d[0]
  {
  }

  lemma StuffTwo(d: Bytes, atLineStart: bool)
    requires |d| == 1 || (|d| == 2 && d == CRLF)
    ensures |d| == 1 && d[0] != DOT ==> Stuff(d, atLineStart) == d
    ensures |d| == 2 ==> Stuff(d, atLineStart) == d
  {
    assert |d| == 2 ==> Stuff(d[1..], false) == [LF];
  }

  /** A stuffed line is never taken for the final dot, and loses exactly the dot added at its start. */
  lemma StuffedLineSurvives(line: Bytes, strict: bool)
    requires line != [] && LineLength(line, strict) == |line|
    ensures !IsFinalLine(Stuff(line, true), strict)
    ensures WithoutDot(Stuff(line, true)) == Stuff(line, false)
  {
    hide Stuff, LineLength;
    FirstStuffed(line, false);
    StuffedHead(line);
    if line[0] == DOT {
      assert Stuff(line, true)[1..] == Stuff(line, false);
      assert Stuff(line, true)[1] == DOT;
    }
  }

  lemma StuffedHead(line: Bytes)
    requires line != []
    ensures line[0] == DOT ==> Stuff(line, true) == [DOT] + Stuff(line, false)
    ensures line[0] != DOT ==> Stuff(line, true) == Stuff(line, false)
  {
    assert [] + [line[0]] + Stuff(line[1..], line[0] == LF) == [line[0]] + Stuff(line[1..], line[0] == LF);
    assert [DOT] + [line[0]] + Stuff(line[1..], line[0] == LF) == [DOT] + ([line[0]] + Stuff(line[1..], line[0] == LF));
  }

  lemma {:induction false} LinePrefix(b: Bytes, strict: bool)
    ensures var n := LineLength(b, strict); LineLength(b[..n], strict) == n
  {
    var n := LineLength(b, strict);
    if n == 0 {
      assert b[..n] == [];
    } else if !strict && b[0] == LF {
    } else if strict && |b| >= 2 && b[0] == CR && b[1] == LF {
    } else {
      LinePrefix(b[1..], strict);
      assert b[..n][1..] == b[1..][..n - 1];
      assert !strict || n < 2 || b[..n][0] != CR || b[..n][1] != LF;
    }
  }

  /** The core of both receivers: whole lines, then the final dot, then whatever follows it. */
  lemma {:induction false} ReceiveStuffed(b: Bytes, tail: Bytes, strict: bool)
    requires Complete(b, strict)
    ensures Receive(Stuff(b, true) + FINAL_DOT + tail, strict) == Some(Received(Seen(b, strict), tail))
    decreases |b|
  {
    hide Stuff, LineLength, Receive;
    if b == [] {
      FinalDot(tail, strict);
      StuffNothing(true);
      LineLengthOfNothing(strict);
      assert Stuff(b, true) + FINAL_DOT + tail == FINAL_DOT + tail;
    } else {
      CompleteHasLine(b, strict);
      var n := LineLength(b, strict);
      ReceiveStuffed(b[n..], tail, strict);
      ReceiveFirst(b, n, tail, strict);
    }
  }

  lemma LineLengthOfNothing(strict: bool)
    ensures LineLength([], strict) == 0
  {
  }

  lemma ReceiveFirst(b: Bytes, n: nat, tail: Bytes, strict: bool)
    requires b != [] && n == LineLength(b, strict) > 0
    requires Receive(Stuff(b[n..], true) + FINAL_DOT + tail, strict).Some?
    ensures var after := Receive(Stuff(b[n..], true) + FINAL_DOT + tail, strict).value;
      Receive(Stuff(b, true) + FINAL_DOT + tail, strict)
      == Some(Received(Stuff(b[..n], false) + after.message, after.rest))
  {
    hide Stuff, LineLength, Receive;
    LinePrefix(b, strict);
    var line, after := b[..n], b[n..];
    assert b == line + after;
    StuffAppend(line, after, true);
    var w' := Stuff(after, true) + FINAL_DOT + tail;
    StuffedLine(line, true, w', strict);
    StuffedLineSurvives(line, strict);
    assert Stuff(b, true) + FINAL_DOT + tail == Stuff(line, true) + w';
    ReceiveLine(Stuff(line, true), w', strict);
  }

  lemma FinalDot(tail: Bytes, strict: bool)
    ensures Receive(FINAL_DOT + tail, strict) == Some(Received([], tail))
  {
    var w := FINAL_DOT + tail;
    assert w[1..] == CRLF + tail;
    assert w[1..][1..] == [LF] + tail;
    assert LineLength(w[1..], strict) == 2 by { assert LineLength([LF] + tail, false) == 1; }
    assert LineLength(w, strict) == 3;
    assert w[..3] == FINAL_DOT && w[3..] == tail;
  }

  lemma ReceiveLine(line: Bytes, w': Bytes, strict: bool)
    requires line != [] && LineLength(line + w', strict) == |line| && !IsFinalLine(line, strict)
    requires Receive(w', strict).Some?
    ensures Receive(line + w', strict)
         == Some(Received(WithoutDot(line) + Receive(w', strict).value.message, Receive(w', strict).value.rest))
  {
    assert (line + w')[..|line|] == line && (line + w')[|line|..] == w';
  }

  /** The body both receivers are meant to end up with. */
  function Body(d: Bytes): Bytes { d + Padding(d) }

  lemma BodyIsComplete(d: Bytes)
    ensures Complete(Body(d), true) && Complete(Body(d), false)
    ensures Framed(d) == Stuff(Body(d), true) + FINAL_DOT
  {
    if Padding(d) == [] {
      assert Body(d) == d;
      assert Stuff(d, true) + [] == Stuff(d, true);
    } else {
      StuffAppend(d, CRLF, true);
      StuffTwo(CRLF, LineStartAfter(d, true));
      assert Body(d)[|Body(d)| - 2..] == CRLF;
    }
  }

  /**
   * A receiver that ends lines at LF recovers every payload, completed to whole
   * lines, and stops exactly at the dot `sendData` wrote.
   */
  lemma LenientReceiverRecovers(d: Bytes, tail: Bytes)
    ensures Receive(Framed(d) + tail, false) == Some(Received(Body(d), tail))
  {
    BodyIsComplete(d);
    ReceiveStuffed(Body(d), tail, false);
    LenientSeesAll(Body(d));
  }

  lemma {:induction false} LenientSeesAll(b: Bytes)
    requires Complete(b, false)
    ensures Seen(b, false) == b
    decreases |b|
  {
    if b == [] {
    } else {
      CompleteHasLine(b, false);
      LinePrefix(b, false);
      var n := LineLength(b, false);
      OneLineUnchanged(b[..n]);
      LenientSeesAll(b[n..]);
      assert b == b[..n] + b[n..];
    }
  }

  lemma {:induction false} OneLineUnchanged(line: Bytes)
    requires LineLength(line, false) == |line|
    ensures Stuff(line, false) == line
  {
    if |line| > 1 {
      assert line[0] != LF;
      OneLineUnchanged(line[1..]);
    }
  }

  /** A dot stands right after an LF that no CR precedes. */
  ghost predicate DotAfterBareLf(d: Bytes) {
    exists i :: BareLfDotAt(d, i)
  }

  predicate BareLfDotAt(d: Bytes, i: int) {
    0 <= i < |d| - 1 && d[i] == LF && d[i + 1] == DOT && (i == 0 || d[i - 1] != CR)
  }

  /**
   * A strict receiver stops at the same place for every payload, and recovers it
   * if and only if no dot follows a bare LF.
   */
  lemma StrictReceiverRecovers(d: Bytes, tail: Bytes)
    ensures var r := Receive(Framed(d) + tail, true);
      r.Some? && r.value.rest == tail && (r.value.message == Body(d) <==> !DotAfterBareLf(d))
  {
    BodyIsComplete(d);
    ReceiveStuffed(Body(d), tail, true);
    StrictSees(Body(d));
    assert forall i :: BareLfDotAt(Body(d), i) <==> BareLfDotAt(d, i);
  }

  lemma {:induction false} StrictSees(b: Bytes)
    requires Complete(b, true)
    ensures |Seen(b, true)| >= |b|
    ensures Seen(b, true) == b <==> !DotAfterBareLf(b)
    decreases |b|
  {
    if b == [] {
    } else {
      CompleteHasLine(b, true);
      LinePrefix(b, true);
      var n := LineLength(b, true);
      var line, after := b[..n], b[n..];
      assert b == line + after;
      StrictLine(line);
      StrictSees(after);
      BareLfDotSplits(b, n);
    }
  }

  /** Dots after bare LFs of a line are exactly those of the body that begin inside the line. */
  lemma BareLfDotSplits(b: Bytes, n: nat)
    requires 0 < n <= |b| && EndsWithCrlf(b[..n])
    ensures DotAfterBareLf(b) <==> DotAfterBareLf(b[..n]) || DotAfterBareLf(b[n..])
  {
    assert b[n - 2] == CR && b[n - 1] == LF;
    if DotAfterBareLf(b) {
      var i :| BareLfDotAt(b, i);
      assert if i < n then BareLfDotAt(b[..n], i) else BareLfDotAt(b[n..], i - n);
    }
    if DotAfterBareLf(b[..n]) {
      var i :| BareLfDotAt(b[..n], i);
      assert BareLfDotAt(b, i);
    }
    if DotAfterBareLf(b[n..]) {
      var i :| BareLfDotAt(b[n..], i);
      assert BareLfDotAt(b, i + n);
    }
  }

  lemma StrictLine(line: Bytes)
    requires line != [] && LineLength(line, true) == |line|
    ensures EndsWithCrlf(line)
    ensures Stuff(line, false) == line <==> !DotAfterBareLf(line)
  {
    InnerLfIsBare(line);
    StuffFixed(line, false);
    hide Stuff, LineLength;
    if i :| 0 <= i < |line| - 1 && line[i] == LF && line[i + 1] == DOT {
      assert BareLfDotAt(line, i);
    }
  }

  /** Inside one strict line every LF is bare. */
  lemma {:induction false} InnerLfIsBare(line: Bytes)
    requires line != [] && LineLength(line, true) == |line|
    ensures EndsWithCrlf(line)
    ensures forall i | 0 < i < |line| - 1 :: line[i] == LF ==> line[i - 1] != CR
  {
    if |line| >= 2 && line[0] == CR && line[1] == LF {
    } else {
      InnerLfIsBare(line[1..]);
      forall i | 0 < i < |line| - 1 ensures line[i] == LF ==> line[i - 1] != CR {
        if i > 1 { assert line[1..][i - 1] == line[i] && line[1..][i - 2] == line[i - 1]; }
      }
    }
  }

  /** Stuffing changes nothing exactly when no dot starts a line. */
  lemma {:induction false} StuffFixed(d: Bytes, atLineStart: bool)
    ensures Stuff(d, atLineStart) == d <==>
      !(atLineStart && d != [] && d[0] == DOT)
      && forall i | 0 <= i < |d| - 1 :: !(d[i] == LF && d[i + 1] == DOT)
  {
    if d == [] {
    } else {
      var rest := Stuff(d[1..], d[0] == LF);
      StuffFixed(d[1..], d[0] == LF);
      assert d == [d[0]] + d[1..];
      if rest == d[1..] {
        assert forall i | 0 < i < |d| - 1 :: d[i] == d[1..][i - 1] && d[i + 1] == d[1..][i];
      } else {
        assert !(atLineStart && d[0] == DOT) ==> Stuff(d, atLineStart)[1..] == rest;
        if |d| > 1 && !(d[0] == LF && d[1] == DOT) {
          var i :| 0 <= i < |d[1..]| - 1 && d[1..][i] == LF && d[1..][i + 1] == DOT;
          assert d[i + 1] == LF && d[i + 2] == DOT;
        }
      }
    }
  }
}
