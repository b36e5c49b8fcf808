/**
 * Lines and replies: the buffering of `src/internal/smtp/connection.ts` and
 * `readReply` of `src/internal/smtp/session.ts` (section 4.2.1 of RFC 5321).
 */
module Replies {
  import opened Common

  // ------------------------------------------------------------------ lines

  /** The length of the first line of `s` including its LF; 0 when there is no LF. */
  function FirstLine(s: Bytes): (n: nat)
    ensures n <= |s|
    ensures n > 0 ==> s[n - 1] == LF && forall i | 0 <= i < n - 1 :: s[i] != LF
    ensures n == 0 ==> LF !in s
  {
    if s == [] then 0
    else if s[0] == LF then 1
    else
      var n := FirstLine(s[1..]);
      assert s == [s[0]] + s[1..];
      if n == 0 then 0 else n + 1
  }

  /** The complete lines of a stream. */
  function Lines(s: Bytes): seq<Bytes>
    decreases |s|
  {
    var n := FirstLine(s);
    if n == 0 then [] else [s[..n]] + Lines(s[n..])
  }

  predicate IsLine(line: Bytes) { line != [] && FirstLine(line) == |line| }

  lemma LineHeads(line: Bytes, rest: Bytes)
    requires IsLine(line)
    ensures FirstLine(line + rest) == |line|
    ensures (line + rest)[..|line|] == line && (line + rest)[|line|..] == rest
  {
    var s := line + rest;
    assert s[|line| - 1] == LF;
    assert forall i | 0 <= i < |line| :: s[i] == line[i];
  }

  lemma LinesHead(line: Bytes, rest: Bytes)
    requires IsLine(line)
    ensures Lines(line + rest) == [line] + Lines(rest)
  {
    hide FirstLine;
    LineHeads(line, rest);
  }

  /** Lines that make up a prefix of a stream are its first lines. */
  lemma {:induction false} LinesAreForced(lines: seq<Bytes>, rest: Bytes)
    requires forall l | l in lines :: IsLine(l)
    ensures Lines(Joined(lines) + rest) == lines + Lines(rest)
  {
    hide Lines, IsLine;
    if lines == [] {
      assert Joined(lines) + rest == rest && lines + Lines(rest) == Lines(rest);
    } else {
      assert lines[0] in lines && forall l | l in lines[1..] :: l in lines;
      var tail := Joined(lines[1..]) + rest;
      assert Joined(lines) + rest == lines[0] + tail;
      LinesHead(lines[0], tail);
      LinesAreForced(lines[1..], rest);
      assert lines == [lines[0]] + lines[1..];
    }
  }

  /** What a read comes to at once: a line, the error it is rejected with, or nothing yet. */
  datatype Delivery<E> = Line(raw: Bytes) | Rejected(error: E) | Pending

  /** The buffer, the pending read and the stored failure of a `LineConnection`. */
  class LineConnection<E(==)> {
    var buffer: Bytes
    var pending: bool
    var failure: Option<E>
    var closed: bool
    ghost var received: Bytes
    ghost var delivered: seq<Bytes>

    /** Nothing is lost, invented or reordered, and no complete line waits while somebody reads. */
    ghost predicate Valid()
      reads this
    {
      && Joined(delivered) + buffer == received
      && (forall l | l in delivered :: IsLine(l))
      && (pending ==> LF !in buffer)
    }

    constructor ()
      ensures Valid() && received == [] && delivered == [] && !pending && failure.None? && !closed
    {
      buffer, pending, failure, closed, received, delivered := [], false, None, false, [], [];
    }

    /** The network hands over `chunk`; a waiting reader gets the line this completes, if any. */
    method HandleData(chunk: Bytes) returns (line: Option<Bytes>)
      requires Valid()
      modifies this
      ensures Valid() && received == old(received) + chunk && failure == old(failure) && closed == old(closed)
      ensures line.Some? <==> old(pending) && LF in chunk
      ensures line.Some? ==> old(buffer) + chunk == line.value + buffer && IsLine(line.value)
      ensures line.None? ==> buffer == old(buffer) + chunk
      ensures delivered == old(delivered) + (if line.Some? then [line.value] else [])
      ensures pending == (old(pending) && line.None?)
    {
      buffer := if |buffer| == 0 then chunk else buffer + chunk;
      received := received + chunk;
      assert buffer == old(buffer) + chunk;
      assert Joined(delivered) + (old(buffer) + chunk) == Joined(delivered) + old(buffer) + chunk;
      assert LF in buffer <==> LF in old(buffer) || LF in chunk;
      line := Drain();
    }

    /**
     * `readLine`: rejected with the stored failure or by an aborted signal,
     * otherwise a buffered line at once, otherwise the read stays pending.
     */
    method ReadLine(aborted: Option<E>) returns (d: Delivery<E>)
      requires Valid() && !pending
      modifies this
      ensures Valid() && received == old(received) && failure == old(failure) && closed == old(closed)
      ensures old(failure).Some? ==> d == Rejected(old(failure).value)
      ensures old(failure).None? && aborted.Some? ==> d == Rejected(aborted.value)
      ensures old(failure).None? && aborted.None? ==> !d.Rejected? && (d.Line? <==> LF in old(buffer))
      ensures d.Line? ==> old(buffer) == d.raw + buffer && IsLine(d.raw)
      ensures !d.Line? ==> buffer == old(buffer)
      ensures delivered == old(delivered) + (if d.Line? then [d.raw] else [])
      ensures pending == d.Pending?
    {
      if failure.Some? { return Rejected(failure.value); }
      if aborted.Some? { return Rejected(aborted.value); }
      pending := true;
      var line := Drain();
      d := if line.Some? then Line(line.value) else Pending;
    }

    /** `drain` */
    method Drain() returns (line: Option<Bytes>)
      requires Joined(delivered) + buffer == received && forall l | l in delivered :: IsLine(l)
      modifies this
      ensures Valid() && received == old(received) && failure == old(failure) && closed == old(closed)
      ensures line.Some? <==> old(pending) && LF in old(buffer)
      ensures line.Some? ==> old(buffer) == line.value + buffer && IsLine(line.value)
      ensures line.None? ==> buffer == old(buffer)
      ensures delivered == old(delivered) + (if line.Some? then [line.value] else [])
      ensures pending == (old(pending) && line.None?)
    {
      hide Lines, Joined, FirstLine;
      if !pending { return None; }
      var n := FirstLine(buffer);
      if n == 0 { return None; }
      assert buffer[n - 1] == LF;
      line := Some(buffer[..n]);
      PrefixIsLine(buffer);
      JoinedAppend(delivered, [line.value]);
      JoinedOne(line.value);
      assert buffer == line.value + buffer[n..];
      delivered := delivered + [line.value];
      buffer := buffer[n..];
      pending := false;
    }

    /** A timeout or an abort settles the pending read; buffered bytes stay for the next one. */
    method GiveUp()
      requires Valid()
      modifies this
      ensures Valid() && !pending && buffer == old(buffer) && received == old(received) && delivered == old(delivered)
      ensures failure == old(failure) && closed == old(closed)
    {
      pending := false;
    }

    /**
     * `fail`: the pending read is rejected, and the error is stored, which is
     * what rejects every later read. After `close` nothing happens any more.
     */
    method Fail(error: E) returns (rejected: bool)
      requires Valid()
      modifies this
      ensures Valid() && buffer == old(buffer) && received == old(received) && delivered == old(delivered)
      ensures closed == old(closed)
      ensures !closed ==> failure == Some(error) && !pending && rejected == old(pending)
      ensures closed ==> failure == old(failure) && pending == old(pending) && !rejected
    {
      if closed { return false; }
      failure := Some(error);
      rejected := pending;
      pending := false;
    }

    /** `close` */
    method Close()
      requires Valid()
      modifies this
      ensures Valid() && closed && failure == old(failure) && pending == old(pending)
      ensures buffer == old(buffer) && received == old(received) && delivered == old(delivered)
    {
      closed := true;
    }
  }

  lemma PrefixIsLine(s: Bytes)
    requires FirstLine(s) > 0
    ensures IsLine(s[..FirstLine(s)])
  {
    var line := s[..FirstLine(s)];
    assert line[|line| - 1] == LF;
  }

  /**
   * However the network split the stream, what a connection delivered are the
   * first lines of the bytes received, in order.
   */
  lemma DeliveryIsFraming<E>(c: LineConnection<E>)
    requires c.Valid()
    ensures Lines(c.received) == c.delivered + Lines(c.buffer)
    ensures c.pending ==> Lines(c.received) == c.delivered
  {
    LinesAreForced(c.delivered, c.buffer);
    if c.pending { assert c.delivered + Lines(c.buffer) == c.delivered; }
  }

  // ---------------------------------------------------------------- replies

  /** What comes of a reply, and the bytes not consumed: those behind its last line, or behind the offending one. */
  datatype Reply =
    | Complete(code: nat, texts: seq<Bytes>, rest: Bytes)
    | Malformed(rest: Bytes)
    | Inconsistent(rest: Bytes)
    | Waiting

  /** `raw` without its `\r?\n`. */
  function Chomp(raw: Bytes): Bytes {
    if raw == [] || raw[|raw| - 1] != LF then raw
    else if |raw| >= 2 && raw[|raw| - 2] == CR then raw[..|raw| - 2]
    else raw[..|raw| - 1]
  }

  predicate HasCode(line: Bytes) { |line| >= 4 && IsDigit(line[0]) && IsDigit(line[1]) && IsDigit(line[2]) }

  function DigitValue(b: byte): (v: nat)
    requires IsDigit(b)
    ensures v < 10
  {
    b - 0x30
  }

  function CodeOf(line: Bytes): nat
    requires HasCode(line)
  {
    DigitValue(line[0]) * 100 + DigitValue(line[1]) * 10 + DigitValue(line[2])
  }

  /** `readReply` on the bytes `s`, when `code` and `texts` were read from earlier lines. */
  function ReplyFrom(s: Bytes, code: nat, texts: seq<Bytes>): Reply
    decreases |s|
  {
    var n := FirstLine(s);
    if n == 0 then Waiting
    else
      var line := Chomp(s[..n]);
      if !HasCode(line) then Malformed(s[n..])
      else if code != 0 && CodeOf(line) != code then Inconsistent(s[n..])
      else
        var texts' := texts + [line[4..]];
        if line[3] == SPACE then Complete(CodeOf(line), texts', s[n..])
        else ReplyFrom(s[n..], CodeOf(line), texts')
  }

  function Behind(r: Reply, more: Bytes): Reply {
    match r
    case Complete(code, texts, rest) => Complete(code, texts, rest + more)
    case Malformed(rest) => Malformed(rest + more)
    case Inconsistent(rest) => Inconsistent(rest + more)
    case Waiting => Waiting
  }

  lemma SplitLine(s: Bytes, more: Bytes)
    requires FirstLine(s) > 0
    ensures FirstLine(s + more) == FirstLine(s)
    ensures (s + more)[..FirstLine(s)] == s[..FirstLine(s)] && (s + more)[FirstLine(s)..] == s[FirstLine(s)..] + more
  {
    var n := FirstLine(s);
    PrefixIsLine(s);
    LineHeads(s[..n], s[n..] + more);
    assert s + more == s[..n] + (s[n..] + more);
  }

  /** A reply that is settled stays settled whatever arrives later; the later bytes are not touched. */
  lemma {:induction false} SettledStays(s: Bytes, more: Bytes, code: nat, texts: seq<Bytes>)
    requires ReplyFrom(s, code, texts) != Waiting
    ensures ReplyFrom(s + more, code, texts) == Behind(ReplyFrom(s, code, texts), more)
    decreases |s|
  {
    hide FirstLine, Chomp, CodeOf;
    var n := FirstLine(s);
    SplitLine(s, more);
    var line := Chomp(s[..n]);
    if HasCode(line) && !(code != 0 && CodeOf(line) != code) && line[3] != SPACE {
      SettledStays(s[n..], more, CodeOf(line), texts + [line[4..]]);
    }
  }

  /** What happens while a read is pending. */
  datatype Event<E> = Arrived(chunk: Bytes) | GaveUp(error: E) | Broken(error: E)

  datatype ReadOutcome<E> = Settled(reply: Reply) | Failed(error: E)

  /** The outcome of a read, and how many of the events happened before it. */
  datatype Reading<E> = Reading(outcome: ReadOutcome<E>, used: nat)

  function Later<E>(r: Reading<E>): Reading<E> { Reading(r.outcome, r.used + 1) }

  /** `readReply` when `s` is buffered, `code` and `texts` are known, and `events` happen while it waits. */
  function ReadOver<E>(s: Bytes, code: nat, texts: seq<Bytes>, events: seq<Event<E>>): (r: Reading<E>)
    ensures r.used <= |events|
    decreases |events|
  {
    var reply := ReplyFrom(s, code, texts);
    if reply != Waiting || events == [] then Reading(Settled(reply), 0)
    else
      match events[0]
      case Arrived(chunk) => Later(ReadOver(s + chunk, code, texts, events[1..]))
      case GaveUp(e) => Reading(Failed(e), 1)
      case Broken(e) => Reading(Failed(e), 1)
  }

  /** The bytes that arrive in `events`. */
  function Arrivals<E>(events: seq<Event<E>>): Bytes {
    if events == [] then [] else (if events[0].Arrived? then events[0].chunk else []) + Arrivals(events[1..])
  }

  /**
   * However the network splits a stream, a reply is read as if all of it had
   * arrived at once; the data events that were not needed are not touched.
   */
  lemma {:induction false} SplitDoesNotMatter<E>(s: Bytes, code: nat, texts: seq<Bytes>, events: seq<Event<E>>)
    requires forall e | e in events :: e.Arrived?
    ensures var r := ReadOver(s, code, texts, events);
      && r.outcome.Settled?
      && ReplyFrom(s + Arrivals(events), code, texts) == Behind(r.outcome.reply, Arrivals(events[r.used..]))
      && (r.outcome.reply == Waiting ==> r.used == |events|)
    decreases |events|
  {
    hide ReplyFrom;
    var reply := ReplyFrom(s, code, texts);
    if reply != Waiting {
      SettledStays(s, Arrivals(events), code, texts);
      assert events[0..] == events;
    } else if events == [] {
      assert s + Arrivals(events) == s;
      assert events[0..] == events;
    } else {
      assert events[0] in events && forall e | e in events[1..] :: e in events;
      var chunk := events[0].chunk;
      SplitDoesNotMatter(s + chunk, code, texts, events[1..]);
      var later := ReadOver(s + chunk, code, texts, events[1..]);
      assert s + chunk + Arrivals(events[1..]) == s + (chunk + Arrivals(events[1..]));
      assert events[later.used + 1..] == events[1..][later.used..];
    }
  }

  /** What one complete line does to a read. */
  lemma LineRead(raw: Bytes, rest: Bytes, code: nat, texts: seq<Bytes>)
    requires IsLine(raw)
    ensures var line, r := Chomp(raw), ReplyFrom(raw + rest, code, texts);
      && (!HasCode(line) ==> r == Malformed(rest))
      && (HasCode(line) && code != 0 && CodeOf(line) != code ==> r == Inconsistent(rest))
      && (HasCode(line) && (code == 0 || CodeOf(line) == code) && line[3] == SPACE ==>
            r == Complete(CodeOf(line), texts + [line[4..]], rest))
      && (HasCode(line) && (code == 0 || CodeOf(line) == code) && line[3] != SPACE ==>
            r == ReplyFrom(rest, CodeOf(line), texts + [line[4..]]))
  {
    hide FirstLine, Chomp, CodeOf, HasCode;
    LineHeads(raw, rest);
  }

  /** A continuation line is behind the reader for good, whatever happens next. */
  lemma {:induction false} LineIsBehind<E>(raw: Bytes, rest: Bytes, code: nat, texts: seq<Bytes>, events: seq<Event<E>>)
    requires IsLine(raw) && HasCode(Chomp(raw)) && (code == 0 || CodeOf(Chomp(raw)) == code) && Chomp(raw)[3] != SPACE
    ensures ReadOver(raw + rest, code, texts, events)
         == ReadOver(rest, CodeOf(Chomp(raw)), texts + [Chomp(raw)[4..]], events)
    decreases |events|
  {
    hide FirstLine, Chomp, CodeOf, HasCode, ReplyFrom;
    LineRead(raw, rest, code, texts);
    if events == [] {
    } else if events[0].Arrived? {
      var chunk := events[0].chunk;
      LineIsBehind(raw, rest + chunk, code, texts, events[1..]);
      assert raw + rest + chunk == raw + (rest + chunk);
    }
  }

  /** A line that is no continuation ends the reading at once. */
  lemma LineEnds<E>(raw: Bytes, rest: Bytes, code: nat, texts: seq<Bytes>, events: seq<Event<E>>)
    requires IsLine(raw)
    requires !(HasCode(Chomp(raw)) && (code == 0 || CodeOf(Chomp(raw)) == code) && Chomp(raw)[3] != SPACE)
    ensures var line := Chomp(raw);
      ReadOver(raw + rest, code, texts, events)
      == Reading(Settled(
           if !HasCode(line) then Malformed(rest)
           else if code != 0 && CodeOf(line) != code then Inconsistent(rest)
           else Complete(CodeOf(line), texts + [line[4..]], rest)), 0)
  {
    hide FirstLine, Chomp, CodeOf, HasCode, ReplyFrom;
    LineRead(raw, rest, code, texts);
  }

  lemma NoLineWaits(s: Bytes, code: nat, texts: seq<Bytes>)
    requires LF !in s
    ensures ReplyFrom(s, code, texts) == Waiting
  {
    var n := FirstLine(s);
    if n > 0 { assert false; }
  }

  function Advanced<E>(n: nat, r: Reading<E>): Reading<E> { Reading(r.outcome, n + r.used) }

  /** One more data event has happened. */
  lemma DataEvent<E>(s: Bytes, code: nat, texts: seq<Bytes>, events: seq<Event<E>>, n: nat)
    requires n < |events| && events[n].Arrived? && LF !in s
    ensures ReadOver(s, code, texts, events[n..])
         == Later(ReadOver(s + events[n].chunk, code, texts, events[n + 1..]))
  {
    hide ReplyFrom;
    NoLineWaits(s, code, texts);
    assert events[n..][0] == events[n] && events[n..][1..] == events[n + 1..];
  }

  /** A read without a line ends with the event that is no data, or goes on waiting. */
  lemma LastEvent<E>(s: Bytes, code: nat, texts: seq<Bytes>, events: seq<Event<E>>, n: nat)
    requires n <= |events| && LF !in s && (n < |events| ==> !events[n].Arrived?)
    ensures ReadOver(s, code, texts, events[n..])
         == if n == |events| then Reading(Settled(Waiting), 0) else Reading(Failed(events[n].error), 1)
  {
    hide ReplyFrom;
    NoLineWaits(s, code, texts);
    if n < |events| { assert events[n..][0] == events[n]; }
  }

  lemma {:induction false} ArrivalsSplit<E>(events: seq<Event<E>>, n: nat)
    requires n < |events|
    ensures Arrivals(events[..n + 1])
         == Arrivals(events[..n]) + (if events[n].Arrived? then events[n].chunk else [])
    decreases n
  {
    var one := events[..n + 1];
    if n == 0 {
      assert one[1..] == [] && events[..0] == [];
    } else {
      ArrivalsSplit(events[1..], n - 1);
      assert one[1..] == events[1..][..n] && events[..n][1..] == events[1..][..n - 1];
    }
  }

  /**
   * One `readLine` of `readReply` and the events until it settles, when the first
   * `from` events are over: a line, or what the whole reading comes to.
   */
  method WaitForLine<E(==)>(c: LineConnection<E>, events: seq<Event<E>>, from: nat,
      ghost code: nat, ghost texts: seq<Bytes>, ghost base: Bytes)
    returns (raw: Option<Bytes>, r: ReadOutcome<E>, used: nat)
    requires c.Valid() && !c.pending && !c.closed && c.failure.None? && from <= |events|
    requires c.received == base + Arrivals(events[..from])
    modifies c
    ensures c.Valid() && !c.closed && from <= used <= |events|
    ensures c.received == base + Arrivals(events[..used])
    ensures raw.Some? ==> !c.pending && c.failure.None? && IsLine(raw.value)
    ensures raw.Some? && used == from ==> |c.buffer| < old(|c.buffer|)
    ensures ReadOver(old(c.buffer), code, texts, events[from..])
         == if raw.Some? then Advanced(used - from, ReadOver(raw.value + c.buffer, code, texts, events[used..]))
            else Reading(r, used - from)
    ensures raw.None? ==> (r == Settled(Waiting) && c.pending && used == |events|) || (r.Failed? && !c.pending)
  {
    hide ReplyFrom, FirstLine, Arrivals, ReadOver, Lines, Joined;
    var d := c.ReadLine(None);
    used, r := from, Settled(Waiting);
    if d.Line? { return Some(d.raw), r, used; }
    while used < |events|
      invariant c.Valid() && c.pending && !c.closed && c.failure.None? && from <= used <= |events|
      invariant c.received == base + Arrivals(events[..used]) && r == Settled(Waiting)
      invariant ReadOver(old(c.buffer), code, texts, events[from..])
             == Advanced(used - from, ReadOver(c.buffer, code, texts, events[used..]))
    {
      ArrivalsSplit(events, used);
      match events[used] {
        case Arrived(chunk) =>
          DataEvent(c.buffer, code, texts, events, used);
          raw := c.HandleData(chunk);
          used := used + 1;
          if raw.Some? { return; }
        case GaveUp(error) =>
          LastEvent(c.buffer, code, texts, events, used);
          c.GiveUp();
          return None, Failed(error), used + 1;
        case Broken(error) =>
          LastEvent(c.buffer, code, texts, events, used);
          var rejected := c.Fail(error);
          return None, Failed(error), used + 1;
      }
    }
    LastEvent(c.buffer, code, texts, events, used);
    return None, Settled(Waiting), used;
  }

  /**
   * `readReply` on a connection, with what happens there while it waits. The
   * code and the texts it has read survive every wait; an abort seen at the
   * start and a stored failure reject it before anything is read.
   */
  method ReadReply<E(==)>(c: LineConnection<E>, aborted: Option<E>, events: seq<Event<E>>)
    returns (r: ReadOutcome<E>, used: nat)
    requires c.Valid() && !c.pending && !c.closed
    modifies c
    ensures c.Valid() && used <= |events| && !c.closed
    ensures c.received == old(c.received) + Arrivals(events[..used])
    ensures old(c.failure).Some? ==> r == Failed(old(c.failure).value)
    ensures old(c.failure).None? && aborted.Some? ==> r == Failed(aborted.value)
    ensures old(c.failure).Some? || aborted.Some? ==> used == 0 && c.buffer == old(c.buffer)
    ensures old(c.failure).None? && aborted.None? ==> Reading(r, used) == ReadOver(old(c.buffer), 0, [], events)
    ensures r.Settled? && r.reply != Waiting ==> c.buffer == r.reply.rest && !c.pending
    ensures r.Settled? && r.reply == Waiting ==> c.pending && used == |events|
    ensures r.Failed? ==> !c.pending
  {
    hide ReplyFrom, FirstLine, Chomp, CodeOf, ReadOver, Lines, Joined;
    used := 0;
    assert c.received == c.received + Arrivals(events[..0]);
    if c.failure.Some? || aborted.Some? {
      var d := c.ReadLine(aborted);
      return Failed(d.error), 0;
    }
    ghost var base := c.received;
    var texts: seq<Bytes> := [];
    var code: nat := 0;
    assert events[0..] == events;
    hide Arrivals;
    while true
      invariant c.Valid() && !c.pending && !c.closed && c.failure.None? && used <= |events|
      invariant c.received == base + Arrivals(events[..used])
      invariant Advanced(used, ReadOver(c.buffer, code, texts, events[used..])) == ReadOver(old(c.buffer), 0, [], events)
      decreases |events| - used, |c.buffer|
    {
      var raw: Option<Bytes>;
      raw, r, used := WaitForLine(c, events, used, code, texts, base);
      if raw.None? { return; }
      var line := Chomp(raw.value);
      if HasCode(line) && (code == 0 || CodeOf(line) == code) && line[3] != SPACE {
        LineIsBehind(raw.value, c.buffer, code, texts, events[used..]);
        code, texts := CodeOf(line), texts + [line[4..]];
      } else {
        LineEnds(raw.value, c.buffer, code, texts, events[used..]);
        if !HasCode(line) { return Settled(Malformed(c.buffer)), used; }
        if code != 0 && CodeOf(line) != code { return Settled(Inconsistent(c.buffer)), used; }
        return Settled(Complete(CodeOf(line), texts + [line[4..]], c.buffer)), used;
      }
    }
  }

  // ---------------------------------------------------------- printed replies

  function CodeDigits(code: nat): Bytes
    requires code < 1000
  {
    [0x30 + code / 100, 0x30 + (code / 10) % 10, 0x30 + code % 10]
  }

  /** One reply line: code, a hyphen or a space, text. */
  function ReplyLine(code: nat, mark: byte, text: Bytes): Bytes
    requires code < 1000
  {
    CodeDigits(code) + [mark] + text + CRLF
  }

  function Mark(texts: seq<Bytes>): byte { if |texts| == 1 then SPACE else HYPHEN }

  predicate Printable(codes: seq<nat>, texts: seq<Bytes>) {
    |codes| == |texts| && forall i | 0 <= i < |codes| :: codes[i] < 1000 && LF !in texts[i]
  }

  /** Reply lines as section 4.2.1 of RFC 5321 prints them, each with a code of its own. */
  function Printed(codes: seq<nat>, texts: seq<Bytes>): Bytes
    requires Printable(codes, texts)
  {
    if texts == [] then []
    else
      ReplyLine(codes[0], Mark(texts), texts[0]) + Printed(codes[1..], texts[1..])
  }

  lemma PrintedLine(code: nat, mark: byte, text: Bytes)
    requires code < 1000 && mark != LF && LF !in text
    ensures var line := ReplyLine(code, mark, text);
      && IsLine(line) && HasCode(Chomp(line)) && CodeOf(Chomp(line)) == code
      && Chomp(line)[3] == mark && Chomp(line)[4..] == text
  {
    var line := ReplyLine(code, mark, text);
    assert line[|line| - 1] == LF && forall i | 0 <= i < |line| - 1 :: line[i] != LF by {
      assert forall i | 0 <= i < |text| :: line[i + 4] == text[i];
    }
    assert Chomp(line) == CodeDigits(code) + [mark] + text;
  }

  /** Reading one printed line. */
  lemma ReplyStep(code: nat, mark: byte, text: Bytes, after: Bytes, known: nat, before: seq<Bytes>)
    requires code < 1000 && mark != LF && LF !in text
    ensures ReplyFrom(ReplyLine(code, mark, text) + after, known, before)
         == if known != 0 && known != code then Inconsistent(after)
            else if mark == SPACE then Complete(code, before + [text], after)
            else ReplyFrom(after, code, before + [text])
  {
    hide FirstLine, Chomp, CodeOf, ReplyLine;
    PrintedLine(code, mark, text);
    LineRead(ReplyLine(code, mark, text), after, known, before);
  }

  /** The first line whose code is not the one known by then; the number of lines when all agree. */
  function Clash(codes: seq<nat>, known: nat): (n: nat)
    ensures n <= |codes|
  {
    if codes == [] || (known != 0 && codes[0] != known) then 0 else 1 + Clash(codes[1..], codes[0])
  }

  /** Some zeros, then one code over and over. */
  predicate Steady(codes: seq<nat>) {
    forall i, j | 0 <= i < j < |codes| :: codes[i] == 0 || codes[j] == codes[i]
  }

  lemma {:induction false} ClashMeansUnsteady(codes: seq<nat>, known: nat)
    ensures Clash(codes, known) == |codes| <==> Steady([known] + codes)
  {
    var all := [known] + codes;
    if codes == [] {
    } else {
      var rest := codes[1..];
      ClashMeansUnsteady(rest, codes[0]);
      assert [codes[0]] + rest == codes;
      if known != 0 && codes[0] != known {
        assert all[0] == known && all[1] == codes[0];
      } else if Steady(codes) {
        assert forall i, j | 0 <= i < j < |all| :: all[i] == 0 || all[j] == all[i] by {
          forall i, j | 0 <= i < j < |all| ensures all[i] == 0 || all[j] == all[i] {
            assert all[j] == codes[j - 1] && (i > 0 ==> all[i] == codes[i - 1]);
            if i == 0 && j > 1 && known != 0 { assert codes[j - 1] == codes[0]; }
          }
        }
      } else {
        var i, j :| 0 <= i < j < |codes| && codes[i] != 0 && codes[j] != codes[i];
        assert all[i + 1] == codes[i] && all[j + 1] == codes[j];
      }
    }
  }

  /** The first line that disagrees with the others, seen from the line before. */
  lemma ClashShifts(codes: seq<nat>, texts: seq<Bytes>, known: nat)
    requires |codes| == |texts| > 0 && (known == 0 || codes[0] == known)
    ensures var n := Clash(codes[1..], codes[0]);
      && Clash(codes, known) == n + 1
      && (n < |codes[1..]| ==> codes[n + 2..] == codes[1..][n + 1..] && texts[n + 2..] == texts[1..][n + 1..])
  {
  }

  lemma Regroup(a: Bytes, b: Bytes, c: Bytes)
    ensures (a + b) + c == a + (b + c)
  {
  }

  lemma PrintableRest(codes: seq<nat>, texts: seq<Bytes>)
    requires Printable(codes, texts) && texts != []
    ensures Printable(codes[1..], texts[1..]) && codes[0] < 1000 && LF !in texts[0]
  {
    forall i | 0 <= i < |codes[1..]| ensures codes[1..][i] < 1000 && LF !in texts[1..][i] {
      assert codes[1..][i] == codes[i + 1] && texts[1..][i] == texts[i + 1];
    }
  }

  lemma PrintedUnfolds(codes: seq<nat>, texts: seq<Bytes>, after: Bytes)
    requires Printable(codes, texts) && texts != []
    ensures Printable(codes[1..], texts[1..]) && codes[0] < 1000 && LF !in texts[0]
    ensures Printed(codes, texts) + after
         == ReplyLine(codes[0], Mark(texts), texts[0]) + (Printed(codes[1..], texts[1..]) + after)
    ensures |texts| == 1 ==> Printed(codes[1..], texts[1..]) == []
  {
    hide ReplyLine, Mark, Printable;
    PrintableRest(codes, texts);
    PrintableSize(codes, texts);
    Regroup(ReplyLine(codes[0], Mark(texts), texts[0]), Printed(codes[1..], texts[1..]), after);
  }

  /** What a reading comes to when its first clash is at line `n`. */
  predicate ReadsTo(r: Reply, codes: seq<nat>, texts: seq<Bytes>, after: Bytes, n: nat, before: seq<Bytes>)
    requires Printable(codes, texts) && texts != [] && n <= |codes|
  {
    r == if n == |codes| then Complete(codes[|codes| - 1], before + texts, after)
         else Inconsistent(Printed(codes[n + 1..], texts[n + 1..]) + after)
  }

  lemma ReadsFurther(r: Reply, codes: seq<nat>, texts: seq<Bytes>, after: Bytes, known: nat, before: seq<Bytes>)
    requires Printable(codes, texts) && |texts| > 1 && (known == 0 || codes[0] == known)
    requires Printable(codes[1..], texts[1..])
    requires ReadsTo(r, codes[1..], texts[1..], after, Clash(codes[1..], codes[0]), before + [texts[0]])
    ensures ReadsTo(r, codes, texts, after, Clash(codes, known), before)
  {
    hide Printed, Clash;
    ClashShifts(codes, texts, known);
    assert before + [texts[0]] + texts[1..] == before + texts;
  }

  lemma LastReads(codes: seq<nat>, texts: seq<Bytes>, after: Bytes, known: nat, before: seq<Bytes>)
    requires Printable(codes, texts) && |texts| == 1 && (known == 0 || codes[0] == known)
    ensures ReadsTo(Complete(codes[0], before + [texts[0]], after), codes, texts, after, Clash(codes, known), before)
  {
    assert texts == [texts[0]];
  }

  lemma ClashesAtOnce(codes: seq<nat>, known: nat)
    requires codes != [] && known != 0 && codes[0] != known
    ensures Clash(codes, known) == 0
  {
  }

  lemma {:induction false} PrintedReadFrom(codes: seq<nat>, texts: seq<Bytes>, after: Bytes, known: nat,
      before: seq<Bytes>)
    requires Printable(codes, texts) && texts != []
    ensures ReadsTo(ReplyFrom(Printed(codes, texts) + after, known, before), codes, texts, after, Clash(codes, known),
      before)
    decreases |texts|
  {
    hide ReplyFrom, ReplyLine, Mark, Printed, Clash, Printable;
    PrintedUnfolds(codes, texts, after);
    PrintableSize(codes, texts);
    MarkMeans(texts);
    ReplyStep(codes[0], Mark(texts), texts[0], Printed(codes[1..], texts[1..]) + after, known, before);
    if known != 0 && codes[0] != known {
      ClashesAtOnce(codes, known);
    } else {
      hide ReadsTo;
      if |texts| == 1 {
        assert [] + after == after;
        LastReads(codes, texts, after, known, before);
      } else {
        PrintedReadFrom(codes[1..], texts[1..], after, codes[0], before + [texts[0]]);
        ReadsFurther(ReplyFrom(Printed(codes, texts) + after, known, before), codes, texts, after, known, before);
      }
    }
  }

  lemma PrintableSize(codes: seq<nat>, texts: seq<Bytes>)
    requires Printable(codes, texts)
    ensures |codes| == |texts|
  {
  }

  lemma MarkMeans(texts: seq<Bytes>)
    ensures Mark(texts) != LF && (Mark(texts) == SPACE <==> |texts| == 1)
  {
  }

  /**
   * When the consistency check works: printed lines are one reply exactly when
   * their codes are some zeros followed by one code over and over. Otherwise the
   * reply is refused, and what stays in the buffer are the lines behind the
   * first one that disagrees.
   */
  lemma PrintedReplyReads(codes: seq<nat>, texts: seq<Bytes>, after: Bytes)
    requires Printable(codes, texts) && texts != []
    ensures Steady(codes) ==>
      ReplyFrom(Printed(codes, texts) + after, 0, []) == Complete(codes[|codes| - 1], texts, after)
    ensures Steady(codes) <==> Clash(codes, 0) == |codes|
    ensures !Steady(codes) ==>
      ReplyFrom(Printed(codes, texts) + after, 0, [])
      == Inconsistent(Printed(codes[Clash(codes, 0) + 1..], texts[Clash(codes, 0) + 1..]) + after)
  {
    hide ReplyFrom, Printed, Clash, Steady;
    PrintedReadFrom(codes, texts, after, 0, []);
    ClashMeansUnsteady(codes, 0);
    ZeroIsSteady(codes);
    assert [] + texts == texts;
  }

  lemma ZeroIsSteady(codes: seq<nat>)
    ensures Steady([0] + codes) <==> Steady(codes)
  {
    var all := [0] + codes;
    assert forall i | 0 <= i < |codes| :: all[i + 1] == codes[i];
    if Steady(all) {
      forall i, j | 0 <= i < j < |codes| ensures codes[i] == 0 || codes[j] == codes[i] {
        assert all[i + 1] == codes[i] && all[j + 1] == codes[j];
      }
    }
  }

  /** A reply printed with one code, whichever it is, is read back as that code and those texts. */
  lemma OneCodeReads(code: nat, texts: seq<Bytes>, after: Bytes)
    requires code < 1000 && texts != [] && forall t | t in texts :: LF !in t
    ensures var codes := seq(|texts|, _ => code);
      Printable(codes, texts) && ReplyFrom(Printed(codes, texts) + after, 0, []) == Complete(code, texts, after)
  {
    hide ReplyFrom, Printed;
    PrintedReplyReads(seq(|texts|, _ => code), texts, after);
  }

  /** The code 000 is no code: the next line may carry any other one, but no other one may follow a code. */
  lemma ZeroCodeIsForgotten(code: nat, first: Bytes, second: Bytes, after: Bytes)
    requires 0 < code < 1000 && LF !in first && LF !in second
    ensures ReplyFrom(Printed([0, code], [first, second]) + after, 0, []) == Complete(code, [first, second], after)
    ensures ReplyFrom(Printed([code, 0], [first, second]) + after, 0, []) == Inconsistent(after)
  {
    hide ReplyFrom, Printed;
    PrintedReplyReads([0, code], [first, second], after);
    var codes := [code, 0];
    assert codes[0] != 0 && codes[1] != codes[0];
    PrintedReplyReads(codes, [first, second], after);
    assert Clash(codes, 0) == 1 by { assert codes[1..] == [0]; }
    assert Printed(codes[2..], [first, second][2..]) + after == after by { NothingPrinted(); }
  }

  lemma NothingPrinted()
    ensures Printed([], []) == []
  {
  }

  // --------------------------------------------------------------- any line

  /** How a line ends: with CRLF, or with a bare LF behind something else than CR. */
  predicate Ends(text: Bytes, end: Bytes) {
    LF !in text && (end == CRLF || (end == [LF] && (text == [] || text[|text| - 1] != CR)))
  }

  lemma EndsLine(text: Bytes, end: Bytes)
    requires Ends(text, end)
    ensures IsLine(text + end)
  {
    var raw := text + end;
    assert raw[|raw| - 1] == LF;
    forall i | 0 <= i < |raw| - 1 ensures raw[i] != LF {
      if i < |text| { assert raw[i] == text[i] && text[i] in text; }
    }
  }

  lemma ChompsEnd(text: Bytes, end: Bytes)
    requires Ends(text, end)
    ensures Chomp(text + end) == text
  {
    var raw := text + end;
    assert raw[..|text|] == text;
    if text != [] { assert raw[|text| - 1] == text[|text| - 1]; }
  }

  /**
   * What one line of a reply does, whatever it holds: less than four characters
   * or no three digits are an error, another code than before is one too, a
   * space behind the code ends the reply and anything else goes on.
   */
  lemma AnyLine(text: Bytes, end: Bytes, after: Bytes, known: nat, before: seq<Bytes>)
    requires Ends(text, end)
    ensures var r := ReplyFrom(text + end + after, known, before);
      if |text| < 4 || exists i | 0 <= i < 3 :: !(0x30 <= text[i] <= 0x39) then r == Malformed(after)
      else
        var code: nat := text[0] as int * 100 + text[1] as int * 10 + text[2] as int - 111 * 0x30;
        r == if known != 0 && code != known then Inconsistent(after)
             else if text[3] == 0x20 then Complete(code, before + [text[4..]], after)
             else ReplyFrom(after, code, before + [text[4..]])
  {
    hide FirstLine, Chomp, Ends, IsLine;
    EndsLine(text, end);
    ChompsEnd(text, end);
    LineRead(text + end, after, known, before);
    hide ReplyFrom;
  }

  /** A line that is still open decides nothing. */
  lemma OpenLineWaits(text: Bytes, known: nat, before: seq<Bytes>)
    requires LF !in text
    ensures ReplyFrom(text, known, before) == Waiting
  {
    hide Chomp, CodeOf;
  }

  /** One reply in two lines, the second of which ends with a bare LF. */
  lemma ReplySample()
    ensures ReplyFrom(Lit("250-hi") + CRLF + (Lit("250 ok") + [LF]), 0, []) == Complete(250, [Lit("hi"), Lit("ok")], [])
  {
    hide ReplyFrom, Lit;
    var first, second, hi, ok := Lit("250-hi"), Lit("250 ok"), Lit("hi"), Lit("ok");
    SampleLines();
    AnyLine(first, CRLF, second + [LF], 0, []);
    AnyLine(second, [LF], [], 250, [hi]);
    assert second + [LF] + [] == second + [LF] && [] + [hi] == [hi] && [hi] + [ok] == [hi, ok];
  }

  lemma SampleLines()
    ensures var a, b := Lit("250-hi"), Lit("250 ok");
      && Ends(a, CRLF) && Ends(b, [LF]) && |a| == |b| == 6
      && a[..4] == [0x32, 0x35, 0x30, 0x2d] && a[4..] == Lit("hi")
      && b[..4] == [0x32, 0x35, 0x30, 0x20] && b[4..] == Lit("ok")
  {
  }
}
