/**
 * A mail transaction over one session (`src/internal/smtp/session.ts`): the two
 * envelope forms, the three ways to send the message, and how commands and
 * replies stay aligned, against any server and any I/O failures.
 */
module Transaction {
  import opened Common
  import opened DataPhase
  import opened Bdat

  /** A recipient, by the address its outcome reports. */
  type Recipient = string

  /** What the client writes and the server owes one reply for. */
  datatype Command =
    | Mail
    | Rcpt(recipient: Recipient)
    | Rset
    | Data
    | Message(wire: Bytes)
    | BdatCommand(chunk: Chunk)

  /**
   * The other end: the code of each reply is a function of the commands up to
   * the one it answers. Single writes and reads may fail. The octets of a write
   * that was given up may still be delivered, and a read that is rejected for a
   * malformed reply has taken this reply out of the buffer.
   */
  datatype Net = Net(
    reply: seq<Command> -> int,
    writeFails: nat -> bool,
    delivers: nat -> bool,
    readFails: nat -> bool,
    consumes: nat -> bool
  )

  /** One connection: the commands the server got, the replies read, and the I/O operations tried. */
  datatype Link = Link(sent: seq<Command>, read: nat, writes: nat, tries: nat)

  /** Replies the server owes that nobody has read. */
  function Unread(l: Link): int { |l.sent| - l.read }

  ghost predicate Reliable(net: Net) { forall k :: !net.writeFails(k) && !net.readFails(k) }

  datatype Step<+T> = Step(link: Link, value: T)

  // ------------------------------------------------------- single operations

  /** `writeCommand`, or `writePipeline` for several commands: one write. */
  function Write(net: Net, l: Link, commands: seq<Command>): Step<bool> {
    var failed := net.writeFails(l.writes);
    var sent := if failed && !net.delivers(l.writes) then l.sent else l.sent + commands;
    Step(l.(sent := sent, writes := l.writes + 1), !failed)
  }

  /** `readReply`: the next reply in order, whatever the caller believes it answers. */
  function Read(net: Net, l: Link): Step<Option<int>> {
    var l' := l.(tries := l.tries + 1);
    if l.read >= |l.sent| then Step(l', None)
    else if net.readFails(l.tries) then Step(if net.consumes(l.tries) then l'.(read := l.read + 1) else l', None)
    else Step(l'.(read := l.read + 1), Some(net.reply(l.sent[..l.read + 1])))
  }

  /** `bestEffortReset` */
  function Reset(net: Net, l: Link): Link {
    var w := Write(net, l, [Rset]);
    if w.value then Read(net, w.link).link else w.link
  }

  /** What becomes of a recipient. Whether a failed operation took effect is in the model only: no caller sees it. */
  datatype Outcome =
    | Answered(recipient: Recipient, code: int)
    | WriteFailed(recipient: Recipient, delivered: bool)
    | ReadFailed(recipient: Recipient, consumed: bool)

  predicate IsAccepted(o: Outcome) { o.Answered? && IsSuccess(o.code) }

  function AcceptedCount(os: seq<Outcome>): nat {
    if os == [] then 0 else (if IsAccepted(os[0]) then 1 else 0) + AcceptedCount(os[1..])
  }

  datatype Failure =
    | IoFailure
    | NoRecipients
    | MailRejected(code: int)
    | RecipientRejected(recipient: Recipient, outcomes: seq<Outcome>)
    | AllRejected(outcomes: seq<Outcome>)
    | DataFailed(code: int)
    | MessageRejected(code: int)
    | InvalidChunkSize

  type Envelope = Result<seq<Outcome>, Failure>

  // ---------------------------------------------------------------- envelope

  /** The reply to one RCPT; a failure becomes an outcome. */
  function ReadRcpt(net: Net, l: Link, r: Recipient): Step<Outcome> {
    var reply := Read(net, l);
    Step(reply.link,
         if reply.value.None? then ReadFailed(r, reply.link.read > l.read) else Answered(r, reply.value.value))
  }

  /** `sendRcptTo`: failures become outcomes. */
  function SendRcpt(net: Net, l: Link, r: Recipient): Step<Outcome> {
    var w := Write(net, l, [Rcpt(r)]);
    if !w.value then Step(w.link, WriteFailed(r, net.delivers(l.writes)))
    else ReadRcpt(net, w.link, r)
  }

  /** The recipient loop of `sendEnvelopeSequential`. */
  function SendRcpts(net: Net, l: Link, rs: seq<Recipient>, requireAll: bool, done: seq<Outcome>): Step<Envelope>
    decreases |rs|
  {
    if rs == [] then Step(l, Ok(done))
    else
      var rcpt := SendRcpt(net, l, rs[0]);
      var done' := done + [rcpt.value];
      if !IsAccepted(rcpt.value) && requireAll then
        Step(Reset(net, rcpt.link), Err(RecipientRejected(rs[0], done')))
      else SendRcpts(net, rcpt.link, rs[1..], requireAll, done')
  }

  /** `sendEnvelopeSequential` */
  function Sequential(net: Net, l: Link, rs: seq<Recipient>, requireAll: bool): Step<Envelope> {
    var w := Write(net, l, [Mail]);
    if !w.value then Step(w.link, Err(IoFailure))
    else
      var reply := Read(net, w.link);
      if reply.value.None? then Step(reply.link, Err(IoFailure))
      else if !IsSuccess(reply.value.value) then Step(reply.link, Err(MailRejected(reply.value.value)))
      else SendRcpts(net, reply.link, rs, requireAll, [])
  }

  /** The reply loop of `sendEnvelopePipelined`; it stops at the first read that fails. */
  function ReadRcpts(net: Net, l: Link, rs: seq<Recipient>, done: seq<Outcome>): Step<seq<Outcome>>
    decreases |rs|
  {
    if rs == [] then Step(l, done)
    else
      var rcpt := ReadRcpt(net, l, rs[0]);
      if rcpt.value.ReadFailed? then Step(rcpt.link, done + [rcpt.value])
      else ReadRcpts(net, rcpt.link, rs[1..], done + [rcpt.value])
  }

  /** The first rejected address; the empty string also stands for "none yet". */
  function FirstRejected(os: seq<Outcome>, found: Recipient): Recipient {
    if os == [] then found
    else FirstRejected(os[1..], if !IsAccepted(os[0]) && found == "" then os[0].recipient else found)
  }

  function RcptCommands(rs: seq<Recipient>): (c: seq<Command>)
    ensures |c| == |rs|
    ensures forall i | 0 <= i < |rs| :: c[i] == Rcpt(rs[i])
  {
    seq(|rs|, i requires 0 <= i < |rs| => Rcpt(rs[i]))
  }

  /** `sendEnvelopePipelined` */
  function Pipelined(net: Net, l: Link, rs: seq<Recipient>, requireAll: bool): Step<Envelope> {
    var w := Write(net, l, [Mail] + RcptCommands(rs));
    if !w.value then Step(w.link, Err(IoFailure))
    else
      var mail := Read(net, w.link);
      if mail.value.None? then Step(mail.link, Err(IoFailure))
      else
        var rcpts := ReadRcpts(net, mail.link, rs, []);
        if EndsInReadFailure(rcpts.value) then Step(rcpts.link, Ok(rcpts.value))
        else if !IsSuccess(mail.value.value) then Step(rcpts.link, Err(MailRejected(mail.value.value)))
        else
          var first := FirstRejected(rcpts.value, "");
          if requireAll && first != "" then
            Step(Reset(net, rcpts.link), Err(RecipientRejected(first, rcpts.value)))
          else Step(rcpts.link, Ok(rcpts.value))
  }

  predicate EndsInReadFailure(os: seq<Outcome>) { os != [] && os[|os| - 1].ReadFailed? }

  // ----------------------------------------------------------------- message

  datatype Transfer = ViaData | ViaSingleBdat | ViaChunkedBdat(chunkSize: int)

  const DEFAULT_BDAT_CHUNK_SIZE: int := 64 * 1024
  const AUTO_BDAT_THRESHOLD: nat := 1024 * 1024

  /** The advertised extensions that matter here, as keys of the session's `extensions`. */
  const PIPELINING: string := "PIPELINING"
  const CHUNKING: string := "CHUNKING"

  type Extensions = map<string, string>

  datatype SendOptions = SendOptions(requireAll: bool, preferBdat: bool, chunkSize: Option<int>)

  /** The message: one buffer, or a stream of chunks. */
  datatype Payload = Whole(bytes: Bytes) | Streamed(pieces: seq<Bytes>)

  /** `toAsyncChunks` */
  function ChunksOf(payload: Payload): seq<Bytes> {
    if payload.Whole? then [payload.bytes] else payload.pieces
  }

  /** How `runTransaction` chooses; only `send`, not `sendRaw`, asks for `autoBdat`. */
  function ChooseTransfer(extensions: Extensions, options: SendOptions, autoBdat: bool, payload: Payload): Transfer {
    if options.preferBdat && CHUNKING in extensions then
      ViaChunkedBdat(if options.chunkSize.Some? then options.chunkSize.value else DEFAULT_BDAT_CHUNK_SIZE)
    else if autoBdat && CHUNKING in extensions && payload.Whole? && |payload.bytes| > AUTO_BDAT_THRESHOLD then
      ViaSingleBdat
    else ViaData
  }

  /** `n` writes of payload octets; the server owes no reply for them alone. */
  function Blocks(net: Net, l: Link, n: nat): Step<bool>
    decreases n
  {
    if n == 0 then Step(l, true)
    else if net.writeFails(l.writes) then Step(l.(writes := l.writes + 1), false)
    else Blocks(net, l.(writes := l.writes + 1), n - 1)
  }

  /** `sendData` */
  function SendMessage(net: Net, l: Link, chunks: seq<Bytes>): Step<Result<int, Failure>> {
    var w := Write(net, l, [Data]);
    if !w.value then Step(w.link, Err(IoFailure))
    else
      var go := Read(net, w.link);
      if go.value.None? then Step(go.link, Err(IoFailure))
      else if !IsIntermediate(go.value.value) then Step(go.link, Err(DataFailed(go.value.value)))
      else
        var d := Joined(chunks);
        var blocks := Blocks(net, go.link, |chunks| + (if Padding(d) == [] then 0 else 1));
        if !blocks.value then Step(blocks.link, Err(IoFailure))
        else
          var end := Write(net, blocks.link, [Message(Framed(d))]);
          if !end.value then Step(end.link, Err(IoFailure))
          else FinalReply(net, end.link)
  }

  function FinalReply(net: Net, l: Link): Step<Result<int, Failure>> {
    var reply := Read(net, l);
    Step(reply.link,
         if reply.value.None? then Err(IoFailure)
         else if !IsSuccess(reply.value.value) then Err(MessageRejected(reply.value.value))
         else Ok(reply.value.value))
  }

  /** One BDAT command, its payload and its reply. */
  function SendChunk(net: Net, l: Link, chunk: Chunk): Step<Result<int, Failure>> {
    var w := Write(net, l, [BdatCommand(chunk)]);
    if !w.value then Step(w.link, Err(IoFailure))
    else
      var block := Blocks(net, w.link, if chunk.payload == [] then 0 else 1);
      if !block.value then Step(block.link, Err(IoFailure))
      else FinalReply(net, block.link)
  }

  /** The command loop of `sendBdatChunked`; it stops at the first reply that is no success. */
  function SendChunks(net: Net, l: Link, plan: seq<Chunk>): Step<Result<int, Failure>>
    requires plan != []
    decreases |plan|
  {
    var first := SendChunk(net, l, plan[0]);
    if |plan| == 1 || first.value.Err? then first else SendChunks(net, first.link, plan[1..])
  }

  function Transmit(net: Net, l: Link, transfer: Transfer, chunks: seq<Bytes>): Step<Result<int, Failure>> {
    match transfer
    case ViaData => SendMessage(net, l, chunks)
    case ViaSingleBdat => SendChunk(net, l, Chunk(|Joined(chunks)|, true, Joined(chunks)))
    case ViaChunkedBdat(size) =>
      if size <= 0 then Step(l, Err(InvalidChunkSize)) else SendChunks(net, l, Plan(chunks, size))
  }

  datatype Report = Report(outcomes: seq<Outcome>, code: int)

  /** `sendEnvelope` */
  function SendEnvelope(net: Net, l: Link, rs: seq<Recipient>, requireAll: bool, pipelining: bool): Step<Envelope> {
    if pipelining then Pipelined(net, l, rs, requireAll) else Sequential(net, l, rs, requireAll)
  }

  /** `runTransaction` */
  function Run(net: Net, l: Link, rs: seq<Recipient>, extensions: Extensions, options: SendOptions, autoBdat: bool,
               payload: Payload): Step<Result<Report, Failure>>
  {
    if rs == [] then Step(l, Err(NoRecipients))
    else
      var e := SendEnvelope(net, l, rs, options.requireAll, PIPELINING in extensions);
      if e.value.Err? then Step(e.link, Err(e.value.error))
      else if AcceptedCount(e.value.value) == 0 then
        Step(Reset(net, e.link), Err(AllRejected(e.value.value)))
      else
        var sent := Transmit(net, e.link, ChooseTransfer(extensions, options, autoBdat, payload), ChunksOf(payload));
        Step(sent.link, if sent.value.Err? then Err(sent.value.error) else Ok(Report(e.value.value, sent.value.value)))
  }

  // --------------------------------------------------------------- alignment

  predicate Sane(l: Link) { l.read <= |l.sent| }

  /** Replies `os` leave behind: those to RCPTs delivered after all, and those a failed read did not take. */
  function Owed(os: seq<Outcome>): nat {
    if os == [] then 0 else OwedFor(os[0]) + Owed(os[1..])
  }

  function OwedFor(o: Outcome): nat {
    match o
    case Answered(_, _) => 0
    case WriteFailed(_, delivered) => if delivered then 1 else 0
    case ReadFailed(_, consumed) => if consumed then 0 else 1
  }

  lemma {:induction false} OwedAppend(os: seq<Outcome>, o: Outcome)
    ensures Owed(os + [o]) == Owed(os) + OwedFor(o)
  {
    if os == [] {
      assert os + [o] == [o] && [o][1..] == [];
    } else {
      assert (os + [o])[1..] == os[1..] + [o];
      OwedAppend(os[1..], o);
    }
  }

  /** One RCPT changes the backlog by what its outcome owes. */
  lemma RcptLeaves(net: Net, l: Link, r: Recipient)
    requires Sane(l)
    ensures var s := SendRcpt(net, l, r);
      Sane(s.link) && Unread(s.link) == Unread(l) + OwedFor(s.value)
  {
  }

  /** Reading one reply of a pipeline takes it, or leaves it with its outcome. */
  lemma ReadRcptLeaves(net: Net, l: Link, r: Recipient)
    requires l.read < |l.sent|
    ensures var s := ReadRcpt(net, l, r);
      Sane(s.link) && s.link.sent == l.sent && Unread(s.link) == Unread(l) - 1 + OwedFor(s.value)
      && !s.value.WriteFailed? && (s.value.Answered? ==> OwedFor(s.value) == 0)
  {
  }

  lemma {:induction false} SequentialLeaves(net: Net, l: Link, rs: seq<Recipient>, requireAll: bool, done: seq<Outcome>)
    requires Sane(l)
    ensures var s := SendRcpts(net, l, rs, requireAll, done);
      Sane(s.link) &&
      (s.value.Ok? ==> Unread(s.link) + Owed(done) == Unread(l) + Owed(s.value.value)
                       && |s.value.value| == |done| + |rs|)
    decreases |rs|
  {
    hide SendRcpt, OwedFor, Owed;
    if rs == [] {
    } else {
      var rcpt := SendRcpt(net, l, rs[0]);
      RcptLeaves(net, l, rs[0]);
      OwedAppend(done, rcpt.value);
      if IsAccepted(rcpt.value) || !requireAll {
        SequentialLeaves(net, rcpt.link, rs[1..], requireAll, done + [rcpt.value]);
      }
    }
  }

  lemma {:induction false} PipelinedLeaves(net: Net, l: Link, rs: seq<Recipient>, done: seq<Outcome>)
    requires Sane(l) && Unread(l) >= |rs|
    ensures var s := ReadRcpts(net, l, rs, done);
      && Sane(s.link) && |done| <= |s.value| <= |done| + |rs|
      && Unread(s.link) + Owed(done) + |s.value| == Unread(l) + Owed(s.value) + |done|
      && (|s.value| < |done| + |rs| ==> EndsInReadFailure(s.value))
    decreases |rs|
  {
    hide ReadRcpt, OwedFor, Owed;
    if rs == [] {
    } else {
      var rcpt := ReadRcpt(net, l, rs[0]);
      ReadRcptLeaves(net, l, rs[0]);
      OwedAppend(done, rcpt.value);
      if rcpt.value.Answered? { PipelinedLeaves(net, rcpt.link, rs[1..], done + [rcpt.value]); }
    }
  }

  lemma {:induction false} BlocksLeave(net: Net, l: Link, n: nat)
    ensures Blocks(net, l, n).link.sent == l.sent && Blocks(net, l, n).link.read == l.read
    ensures Reliable(net) ==> Blocks(net, l, n).value
    decreases n
  {
    if n > 0 && !net.writeFails(l.writes) { BlocksLeave(net, l.(writes := l.writes + 1), n - 1); }
  }

  lemma ChunkLeaves(net: Net, l: Link, chunk: Chunk)
    requires Sane(l)
    ensures var s := SendChunk(net, l, chunk);
      Sane(s.link) && (s.value.Ok? ==> Unread(s.link) == Unread(l)) && (Reliable(net) ==> Unread(s.link) == Unread(l))
  {
    BlocksLeave(net, Write(net, l, [BdatCommand(chunk)]).link, if chunk.payload == [] then 0 else 1);
    hide Blocks;
  }

  lemma {:induction false} ChunksLeave(net: Net, l: Link, plan: seq<Chunk>)
    requires Sane(l) && plan != []
    ensures var s := SendChunks(net, l, plan);
      Sane(s.link) && (s.value.Ok? ==> Unread(s.link) == Unread(l)) && (Reliable(net) ==> Unread(s.link) == Unread(l))
    decreases |plan|
  {
    hide SendChunk;
    ChunkLeaves(net, l, plan[0]);
    var first := SendChunk(net, l, plan[0]);
    if |plan| > 1 && first.value.Ok? { ChunksLeave(net, first.link, plan[1..]); }
  }

  lemma MessageLeaves(net: Net, l: Link, chunks: seq<Bytes>)
    requires Sane(l)
    ensures var s := SendMessage(net, l, chunks);
      Sane(s.link) && (s.value.Ok? ==> Unread(s.link) == Unread(l)) && (Reliable(net) ==> Unread(s.link) == Unread(l))
  {
    hide Blocks, Framed, Padding, Joined;
    var go := Read(net, Write(net, l, [Data]).link);
    BlocksLeave(net, go.link, |chunks| + (if Padding(Joined(chunks)) == [] then 0 else 1));
  }

  lemma TransmitLeaves(net: Net, l: Link, transfer: Transfer, chunks: seq<Bytes>)
    requires Sane(l)
    ensures var s := Transmit(net, l, transfer, chunks);
      Sane(s.link) && (s.value.Ok? ==> Unread(s.link) == Unread(l)) && (Reliable(net) ==> Unread(s.link) == Unread(l))
  {
    hide SendMessage, SendChunk, SendChunks, Plan, Joined;
    match transfer
    case ViaData => MessageLeaves(net, l, chunks);
    case ViaSingleBdat => ChunkLeaves(net, l, Chunk(|Joined(chunks)|, true, Joined(chunks)));
    case ViaChunkedBdat(size) => if size > 0 { ChunksLeave(net, l, Plan(chunks, size)); }
  }

  lemma NothingOwed()
    ensures Owed([]) == 0
  {
  }

  lemma ResetStaysSane(net: Net, l: Link)
    requires Sane(l)
    ensures Sane(Reset(net, l))
  {
  }

  lemma EnvelopeLeaves(net: Net, l: Link, rs: seq<Recipient>, requireAll: bool, pipelining: bool)
    requires Sane(l)
    ensures var e := SendEnvelope(net, l, rs, requireAll, pipelining);
      && Sane(e.link)
      && (e.value.Ok? ==> var os := e.value.value;
            && |os| <= |rs| && Unread(e.link) == Unread(l) + Owed(os) + (|rs| - |os|)
            && (|os| < |rs| ==> EndsInReadFailure(os)))
  {
    hide SendRcpts, ReadRcpts, FirstRejected, Owed, Reset;
    NothingOwed();
    if pipelining {
      var commands := [Mail] + RcptCommands(rs);
      var w := Write(net, l, commands);
      var mail := Read(net, w.link);
      assert |l.sent + commands| == |l.sent| + 1 + |rs|;
      if w.value && mail.value.Some? {
        PipelinedLeaves(net, mail.link, rs, []);
        ResetStaysSane(net, ReadRcpts(net, mail.link, rs, []).link);
      }
    } else {
      var mail := Read(net, Write(net, l, [Mail]).link);
      SequentialLeaves(net, mail.link, rs, requireAll, []);
    }
  }

  /**
   * The exact balance of a transaction that returns normally, whatever failed in
   * between and whatever was unread before: what stays unread in addition are the
   * replies its outcomes owe, and in the pipelined form one for every recipient
   * behind the read that failed, which was never asked for.
   */
  lemma BalanceIsExact(net: Net, l: Link, rs: seq<Recipient>, extensions: Extensions, options: SendOptions,
                       autoBdat: bool, payload: Payload)
    requires Sane(l) && Run(net, l, rs, extensions, options, autoBdat, payload).value.Ok?
    ensures var r := Run(net, l, rs, extensions, options, autoBdat, payload);
      var os := r.value.value.outcomes;
      Sane(r.link) && |os| <= |rs| && Unread(r.link) == Unread(l) + Owed(os) + (|rs| - |os|)
  {
    hide Transmit, SendEnvelope, Owed, ChooseTransfer;
    var e := SendEnvelope(net, l, rs, options.requireAll, PIPELINING in extensions);
    EnvelopeLeaves(net, l, rs, options.requireAll, PIPELINING in extensions);
    TransmitLeaves(net, e.link, ChooseTransfer(extensions, options, autoBdat, payload), ChunksOf(payload));
  }

  /**
   * When a pool may hand the session out again: a session that was aligned stays
   * aligned through a transaction that returns normally if and only if every
   * recipient has an outcome and none of them owes a reply.
   */
  lemma AlignedIffNothingOwed(net: Net, l: Link, rs: seq<Recipient>, extensions: Extensions, options: SendOptions,
                              autoBdat: bool, payload: Payload)
    requires Sane(l) && Unread(l) == 0 && Run(net, l, rs, extensions, options, autoBdat, payload).value.Ok?
    ensures var r := Run(net, l, rs, extensions, options, autoBdat, payload);
      var os := r.value.value.outcomes;
      Unread(r.link) == 0 <==> |os| == |rs| && forall o | o in os :: OwedFor(o) == 0
  {
    hide Run, Owed, OwedFor;
    BalanceIsExact(net, l, rs, extensions, options, autoBdat, payload);
    OwedMeans(Run(net, l, rs, extensions, options, autoBdat, payload).value.value.outcomes);
  }

  lemma {:induction false} OwedMeans(os: seq<Outcome>)
    ensures Owed(os) == 0 <==> forall o | o in os :: OwedFor(o) == 0
  {
    hide OwedFor;
    if os == [] {
    } else {
      OwedMeans(os[1..]);
      assert os == [os[0]] + os[1..];
      assert os[0] in os;
    }
  }

  /**
   * The half a caller can see: when the server answered for every outcome, the
   * backlog is what it was. Which failed operations took effect no caller sees.
   */
  lemma AllAnsweredStaysAligned(net: Net, l: Link, rs: seq<Recipient>, extensions: Extensions, options: SendOptions,
                                autoBdat: bool, payload: Payload)
    requires Sane(l) && Run(net, l, rs, extensions, options, autoBdat, payload).value.Ok?
    ensures var r := Run(net, l, rs, extensions, options, autoBdat, payload);
      (forall o | o in r.value.value.outcomes :: o.Answered?) ==> Unread(r.link) == Unread(l)
  {
    hide Transmit, SendEnvelope, Owed, ChooseTransfer;
    BalanceIsExact(net, l, rs, extensions, options, autoBdat, payload);
    EnvelopeLeaves(net, l, rs, options.requireAll, PIPELINING in extensions);
    var os := Run(net, l, rs, extensions, options, autoBdat, payload).value.value.outcomes;
    OwedMeans(os);
    if |os| < |rs| { assert os[|os| - 1] in os; }
  }

  /** On an aligned session every command is answered by its own reply. */
  lemma ReplyIsItsOwn(net: Net, l: Link, c: Command)
    requires Reliable(net) && Unread(l) == 0
    ensures var r := Read(net, Write(net, l, [c]).link);
      r.value == Some(net.reply(l.sent + [c])) && Unread(r.link) == 0
  {
    assert (l.sent + [c])[..l.read + 1] == l.sent + [c];
  }

  /** A server that always answers 250, over a connection where the write or the read of the first RCPT fails. */
  function Flaky(writing: bool, takesEffect: bool): Net {
    Net(history => 250, k => writing && k == 1, k => takesEffect, k => !writing && k == 1, k => takesEffect)
  }

  const BDAT_ONLY: SendOptions := SendOptions(false, true, Some(1))

  /**
   * Swallowed failures: the write or the read of one RCPT fails, the transaction
   * still succeeds, and the pool takes the session back. Whether a reply is left
   * unread depends on what no caller sees: a given-up write that was delivered
   * leaves one, and so does a failed read that took nothing.
   */
  lemma SwallowedFailure(writing: bool, takesEffect: bool) returns (r: Step<Result<Report, Failure>>)
    ensures r == Run(Flaky(writing, takesEffect), Link([], 0, 0, 0), ["a", "b"], map[CHUNKING := ""], BDAT_ONLY, false,
                     Whole([0x41]))
    ensures r.value == Ok(Report([if writing then WriteFailed("a", takesEffect) else ReadFailed("a", takesEffect),
                                  Answered("b", 250)], 250))
    ensures Unread(r.link) == if writing == takesEffect then 1 else 0
  {
    hide Plan, SendRcpts, SendChunks, Blocks, FinalReply, Owed;
    var net := Flaky(writing, takesEffect);
    var extensions: Extensions := map[CHUNKING := ""];
    assert |PIPELINING| != |CHUNKING|;
    r := Run(net, Link([], 0, 0, 0), ["a", "b"], extensions, BDAT_ONLY, false, Whole([0x41]));
    var mail := Read(net, Write(net, Link([], 0, 0, 0), [Mail]).link).link;
    var envelope, os := SwallowedEnvelope(writing, takesEffect, mail);
    OnePlan();
    OneChunk(net, envelope);
    BalanceIsExact(net, Link([], 0, 0, 0), ["a", "b"], extensions, BDAT_ONLY, false, Whole([0x41]));
    OwedAppend([], os[0]);
    OwedAppend([os[0]], os[1]);
    NothingOwed();
    assert [] + [os[0]] == [os[0]] && [os[0]] + [os[1]] == os;
  }

  lemma SwallowedEnvelope(writing: bool, takesEffect: bool, mail: Link) returns (after: Link, os: seq<Outcome>)
    requires mail == Link([Mail], 1, 1, 1)
    ensures os == [if writing then WriteFailed("a", takesEffect) else ReadFailed("a", takesEffect), Answered("b", 250)]
    ensures Sane(after) && after.writes == 3 && after.tries >= 2
    ensures SendRcpts(Flaky(writing, takesEffect), mail, ["a", "b"], false, []) == Step(after, Ok(os))
    ensures AcceptedCount(os) == 1
  {
    var net := Flaky(writing, takesEffect);
    var a := SendRcpt(net, mail, "a");
    assert a.value == if writing then WriteFailed("a", takesEffect) else ReadFailed("a", takesEffect);
    var b := SendRcpt(net, a.link, "b");
    assert b.value == Answered("b", 250);
    after, os := b.link, [a.value, b.value];
    RcptLeaves(net, mail, "a");
    RcptLeaves(net, a.link, "b");
    hide SendRcpt;
    var rs: seq<Recipient> := ["a", "b"];
    var last: seq<Recipient> := ["b"];
    assert rs[1..] == last && last[1..] == [];
    assert [a.value] + [b.value] == os;
    assert SendRcpts(net, b.link, [], false, os) == Step(b.link, Ok(os));
    assert SendRcpts(net, a.link, last, false, [a.value]) == Step(b.link, Ok(os));
    assert [] + [a.value] == [a.value];
    assert SendRcpts(net, mail, rs, false, []) == SendRcpts(net, a.link, last, false, [a.value]);
    OnlyLastAccepted(a.value, b.value);
  }

  lemma OnlyLastAccepted(a: Outcome, b: Outcome)
    requires !IsAccepted(a) && IsAccepted(b)
    ensures AcceptedCount([a, b]) == 1
  {
    assert [a, b][1..] == [b] && [b][1..] == [];
    assert AcceptedCount([b]) == 1;
  }

  lemma OneChunk(net: Net, l: Link)
    requires (forall h :: net.reply(h) == 250) && (forall k :: k > 1 ==> !net.writeFails(k) && !net.readFails(k))
    requires Sane(l) && l.writes > 1 && l.tries > 1
    ensures SendChunks(net, l, [Chunk(1, true, [0x41])]).value == Ok(250)
  {
    var c := Chunk(1, true, [0x41]);
    var w := Write(net, l, [BdatCommand(c)]).link;
    assert Blocks(net, w, 1) == Step(w.(writes := w.writes + 1), true);
  }

  lemma OnePlan()
    ensures Plan([[0x41]], 1) == [Chunk(1, true, [0x41])]
  {
    var x: Bytes := [0x41];
    assert Cut(x, 1, 1) == [] && x[0..Min(0 + 1, |x|)] == x;
    assert Cut(x, 0, 1) == [x];
    assert Pieces([0x41], 0, [], 1) == [[0x41]];
    assert Rechunk([[0x41]], 1) == [[0x41]];
  }

  // -------------------------------------------------------------- refinement

  lemma WriteWorks(net: Net, l: Link, commands: seq<Command>)
    requires Reliable(net)
    ensures Write(net, l, commands) == Step(l.(sent := l.sent + commands, writes := l.writes + 1), true)
  {
  }

  lemma ReadWorks(net: Net, l: Link, answered: seq<Command>)
    requires Reliable(net) && l.read < |l.sent| && answered == l.sent[..l.read + 1]
    ensures Read(net, l) == Step(l.(read := l.read + 1, tries := l.tries + 1), Some(net.reply(answered)))
  {
  }

  /** What the server answers the recipients `rs`, after the commands `sent`. */
  function ServerOutcomes(net: Net, sent: seq<Command>, rs: seq<Recipient>): (os: seq<Outcome>)
    ensures |os| == |rs|
    ensures forall i | 0 <= i < |rs| :: os[i].Answered? && os[i].recipient == rs[i]
    decreases |rs|
  {
    if rs == [] then []
    else
      [Answered(rs[0], net.reply(sent + [Rcpt(rs[0])]))] + ServerOutcomes(net, sent + [Rcpt(rs[0])], rs[1..])
  }

  /** The index of the first recipient not accepted; `|os|` when there is none. */
  function FirstRejection(os: seq<Outcome>): (k: nat)
    ensures k <= |os|
    ensures forall i | 0 <= i < k :: IsAccepted(os[i])
    ensures k < |os| ==> !IsAccepted(os[k])
  {
    if os == [] || !IsAccepted(os[0]) then 0 else 1 + FirstRejection(os[1..])
  }

  lemma ResetWorks(net: Net, l: Link)
    requires Reliable(net) && Unread(l) == 0
    ensures Unread(Reset(net, l)) == 0
  {
    ReplyIsItsOwn(net, l, Rset);
  }

  /** What the recipient loop does when no I/O fails. */
  lemma {:induction false} SequentialAnswers(net: Net, l: Link, rs: seq<Recipient>, requireAll: bool,
      done: seq<Outcome>)
    requires Reliable(net) && Unread(l) == 0
    ensures var s := SendRcpts(net, l, rs, requireAll, done);
      var os := ServerOutcomes(net, l.sent, rs);
      var k := FirstRejection(os);
      && Unread(s.link) == 0
      && (!requireAll || k == |os| ==> s.value == Ok(done + os) && s.link.sent == l.sent + RcptCommands(rs))
      && (requireAll && k < |os| ==> s.value == Err(RecipientRejected(rs[k], done + os[..k + 1])))
    decreases |rs|
  {
    hide Reset, RcptCommands, Reliable, ServerOutcomes, FirstRejection, IsAccepted;
    var os := ServerOutcomes(net, l.sent, rs);
    if rs == [] {
      assert done + os == done && l.sent + RcptCommands(rs) == l.sent;
    } else {
      var l' := RcptWorks(net, l, rs[0]);
      hide SendRcpt;
      OutcomesStep(net, l.sent, rs);
      if !IsAccepted(os[0]) && requireAll {
        ResetWorks(net, l');
        assert done + os[..1] == done + [os[0]];
      } else {
        SequentialAnswers(net, l', rs[1..], requireAll, done + [os[0]]);
        SequentialTail(l.sent, rs, done, os, FirstRejection(os[1..]));
      }
    }
  }

  /** The first of the server's outcomes, and where the first rejection is. */
  lemma OutcomesStep(net: Net, sent: seq<Command>, rs: seq<Recipient>)
    requires rs != []
    ensures var os := ServerOutcomes(net, sent, rs);
      && os[0] == Answered(rs[0], net.reply(sent + [Rcpt(rs[0])]))
      && os[1..] == ServerOutcomes(net, sent + [Rcpt(rs[0])], rs[1..])
      && FirstRejection(os) == if IsAccepted(os[0]) then 1 + FirstRejection(os[1..]) else 0
  {
  }

  lemma RcptWorks(net: Net, l: Link, r: Recipient) returns (l': Link)
    requires Reliable(net) && Unread(l) == 0
    ensures l'.sent == l.sent + [Rcpt(r)] && Unread(l') == 0
    ensures SendRcpt(net, l, r) == Step(l', Answered(r, net.reply(l.sent + [Rcpt(r)])))
  {
    ReplyIsItsOwn(net, l, Rcpt(r));
    l' := SendRcpt(net, l, r).link;
  }

  lemma SequentialTail(sent: seq<Command>, rs: seq<Recipient>, done: seq<Outcome>, os: seq<Outcome>, k: nat)
    requires rs != [] && |os| == |rs|
    ensures sent + [Rcpt(rs[0])] + RcptCommands(rs[1..]) == sent + RcptCommands(rs)
    ensures done + [os[0]] + os[1..] == done + os
    ensures k < |os| - 1 ==> done + [os[0]] + os[1..][..k + 1] == done + os[..k + 2]
  {
    if k < |os| - 1 { assert os[..k + 2] == [os[0]] + os[1..][..k + 1]; }
  }

  /** What the reply loop of the pipelined form reads when no I/O fails. */
  lemma {:induction false} PipelinedAnswers(net: Net, l: Link, before: seq<Command>, rs: seq<Recipient>,
      done: seq<Outcome>)
    requires Reliable(net) && l.read == |before| && l.sent == before + RcptCommands(rs)
    ensures var s := ReadRcpts(net, l, rs, done);
      s.value == done + ServerOutcomes(net, before, rs) && Unread(s.link) == 0 && s.link.sent == l.sent
    decreases |rs|
  {
    hide Read, Reliable, RcptCommands, ServerOutcomes;
    if rs == [] {
      assert done + ServerOutcomes(net, before, rs) == done;
    } else {
      var before' := before + [Rcpt(rs[0])];
      var o := Answered(rs[0], net.reply(before'));
      PipelinedHead(l.sent, before, rs);
      ReadWorks(net, l, before');
      var l' := l.(read := l.read + 1, tries := l.tries + 1);
      assert ReadRcpts(net, l, rs, done) == ReadRcpts(net, l', rs[1..], done + [o]);
      hide ReadRcpts;
      PipelinedAnswers(net, l', before', rs[1..], done + [o]);
      OutcomesHead(net, before, rs, done);
    }
  }

  lemma OutcomesHead(net: Net, before: seq<Command>, rs: seq<Recipient>, done: seq<Outcome>)
    requires rs != []
    ensures var o := Answered(rs[0], net.reply(before + [Rcpt(rs[0])]));
      done + [o] + ServerOutcomes(net, before + [Rcpt(rs[0])], rs[1..]) == done + ServerOutcomes(net, before, rs)
  {
  }

  lemma PipelinedHead(sent: seq<Command>, before: seq<Command>, rs: seq<Recipient>)
    requires rs != [] && sent == before + RcptCommands(rs)
    ensures sent[..|before| + 1] == before + [Rcpt(rs[0])]
    ensures sent == before + [Rcpt(rs[0])] + RcptCommands(rs[1..])
  {
  }

  /** The sequential form against the server. */
  lemma SequentialMeets(net: Net, l: Link, rs: seq<Recipient>, requireAll: bool)
    requires Reliable(net) && Unread(l) == 0
    ensures var s := Sequential(net, l, rs, requireAll);
      var code := net.reply(l.sent + [Mail]);
      var os := ServerOutcomes(net, l.sent + [Mail], rs);
      var k := FirstRejection(os);
      && Unread(s.link) == 0
      && (!IsSuccess(code) ==> s.value == Err(MailRejected(code)))
      && (IsSuccess(code) && (!requireAll || k == |os|) ==>
            s.value == Ok(os) && s.link.sent == l.sent + [Mail] + RcptCommands(rs))
      && (IsSuccess(code) && requireAll && k < |os| ==> s.value == Err(RecipientRejected(rs[k], os[..k + 1])))
  {
    hide SendRcpts, FirstRejection, ServerOutcomes, Read, Write, Reliable, RcptCommands;
    var l1 := l.(sent := l.sent + [Mail], writes := l.writes + 1);
    var l2 := l1.(read := l1.read + 1, tries := l1.tries + 1);
    WriteWorks(net, l, [Mail]);
    ReadWorks(net, l1, l.sent + [Mail]);
    SequentialAnswers(net, l2, rs, requireAll, []);
    Trimmed(ServerOutcomes(net, l.sent + [Mail], rs), FirstRejection(ServerOutcomes(net, l.sent + [Mail], rs)));
  }

  lemma Trimmed(os: seq<Outcome>, k: nat)
    requires k <= |os|
    ensures [] + os == os && (k < |os| ==> [] + os[..k + 1] == os[..k + 1])
  {
  }

  /** The pipelined form against the server. */
  lemma PipelinedMeets(net: Net, l: Link, rs: seq<Recipient>, requireAll: bool)
    requires Reliable(net) && Unread(l) == 0
    ensures var p := Pipelined(net, l, rs, requireAll);
      var code := net.reply(l.sent + [Mail]);
      var os := ServerOutcomes(net, l.sent + [Mail], rs);
      && Unread(p.link) == 0
      && (!IsSuccess(code) ==> p.value == Err(MailRejected(code)))
      && (IsSuccess(code) && (!requireAll || FirstRejected(os, "") == "") ==>
            p.value == Ok(os) && p.link.sent == l.sent + [Mail] + RcptCommands(rs))
      && (IsSuccess(code) && requireAll && FirstRejected(os, "") != "" ==>
            p.value == Err(RecipientRejected(FirstRejected(os, ""), os)))
  {
    hide ReadRcpts, FirstRejected, ServerOutcomes, Read, Write, Reliable, RcptCommands, Reset;
    var commands := [Mail] + RcptCommands(rs);
    var l1 := l.(sent := l.sent + commands, writes := l.writes + 1);
    var l2 := l1.(read := l1.read + 1, tries := l1.tries + 1);
    WriteWorks(net, l, commands);
    assert l1.sent == l.sent + [Mail] + RcptCommands(rs);
    assert l1.sent[..l.read + 1] == l.sent + [Mail];
    ReadWorks(net, l1, l.sent + [Mail]);
    PipelinedAnswers(net, l2, l.sent + [Mail], rs, []);
    Trimmed(ServerOutcomes(net, l.sent + [Mail], rs), 0);
    ResetWorks(net, ReadRcpts(net, l2, rs, []).link);
  }

  lemma {:induction false} FirstRejectedIs(os: seq<Outcome>, rs: seq<Recipient>)
    requires |os| == |rs| && "" !in rs
    requires forall i | 0 <= i < |rs| :: os[i].Answered? && os[i].recipient == rs[i]
    ensures FirstRejected(os, "") == if FirstRejection(os) < |os| then rs[FirstRejection(os)] else ""
  {
    if os == [] {
    } else {
      assert rs[0] in rs;
      if IsAccepted(os[0]) {
        FirstRejectedIs(os[1..], rs[1..]);
      } else {
        FoundStays(os[1..], rs[0]);
      }
    }
  }

  lemma {:induction false} FoundStays(os: seq<Outcome>, found: Recipient)
    requires found != ""
    ensures FirstRejected(os, found) == found
  {
    if os == [] {
    } else {
      FoundStays(os[1..], found);
    }
  }

  /** What the caller of either form sees: the same outcomes, or the same refusal. */
  ghost predicate SameVerdict(s: Envelope, p: Envelope) {
    match (s, p)
    case (Ok(a), Ok(b)) => a == b
    case (Err(RecipientRejected(r, a)), Err(RecipientRejected(q, b))) => r == q && a <= b
    case (Err(e), Err(f)) => e == f
    case _ => false
  }

  /**
   * The pipelined envelope refines the sequential one. Against any server, when
   * no I/O fails and no recipient's address is empty, both forms accept the same
   * recipients, throw the same refusal and name the same recipient, the pipelined
   * form has drained every reply, and an accepted envelope sent the same commands.
   */
  lemma PipelinedRefinesSequential(net: Net, l: Link, rs: seq<Recipient>, requireAll: bool)
    requires Reliable(net) && Unread(l) == 0 && "" !in rs
    ensures var s, p := Sequential(net, l, rs, requireAll), Pipelined(net, l, rs, requireAll);
      && SameVerdict(s.value, p.value)
      && Unread(s.link) == 0 && Unread(p.link) == 0
      && (p.value.Ok? ==> p.link.sent == s.link.sent)
  {
    hide Sequential, Pipelined, FirstRejected, FirstRejection, ServerOutcomes, RcptCommands, Reliable;
    SequentialMeets(net, l, rs, requireAll);
    PipelinedMeets(net, l, rs, requireAll);
    FirstRejectedIs(ServerOutcomes(net, l.sent + [Mail], rs), rs);
  }

  /**
   * The refinement needs that condition: whenever some recipient's address is
   * empty, a server that refuses just this recipient makes the sequential form
   * throw and the pipelined form succeed.
   */
  lemma EmptyAddressBreaksRefinement(rs: seq<Recipient>, i: nat) returns (net: Net)
    requires i < |rs| && rs[i] == ""
    ensures Reliable(net)
    ensures var l := Link([], 0, 0, 0);
      Sequential(net, l, rs, true).value.Err? && Pipelined(net, l, rs, true).value.Ok?
  {
    var l := Link([], 0, 0, 0);
    net := Net((history: seq<Command>) => if |history| == i + 2 then 550 else 250, k => false, k => false, k => false,
      k => false);
    SequentialMeets(net, l, rs, true);
    PipelinedMeets(net, l, rs, true);
    OnlyOneRefused(net, [Mail], rs, i);
    var os := ServerOutcomes(net, l.sent + [Mail], rs);
    assert l.sent + [Mail] == [Mail];
    OnlyEmptyRejected(os, i);
    hide Sequential, Pipelined;
  }

  lemma {:induction false} OnlyOneRefused(net: Net, sent: seq<Command>, rs: seq<Recipient>, i: nat)
    requires forall h: seq<Command> :: net.reply(h) == if |h| == |sent| + 1 + i then 550 else 250
    ensures var os := ServerOutcomes(net, sent, rs);
      forall k | 0 <= k < |os| :: IsAccepted(os[k]) <==> k != i
    decreases |rs|
  {
    if rs == [] {
    } else {
      var os := ServerOutcomes(net, sent, rs);
      assert forall k | 0 < k < |os| :: os[k] == ServerOutcomes(net, sent + [Rcpt(rs[0])], rs[1..])[k - 1];
      if i > 0 {
        OnlyOneRefused(net, sent + [Rcpt(rs[0])], rs[1..], i - 1);
      } else {
        AllAccepted(net, sent + [Rcpt(rs[0])], rs[1..], |sent| + 1);
      }
    }
  }

  lemma {:induction false} AllAccepted(net: Net, sent: seq<Command>, rs: seq<Recipient>, past: nat)
    requires past <= |sent| && forall h: seq<Command> :: |h| > past ==> net.reply(h) == 250
    ensures forall o | o in ServerOutcomes(net, sent, rs) :: IsAccepted(o)
    decreases |rs|
  {
    if rs == [] {
    } else {
      AllAccepted(net, sent + [Rcpt(rs[0])], rs[1..], past);
    }
  }

  lemma {:induction false} OnlyEmptyRejected(os: seq<Outcome>, i: nat)
    requires forall k | 0 <= k < |os| :: (IsAccepted(os[k]) <==> k != i) && (k == i ==> os[k].recipient == "")
    ensures FirstRejected(os, "") == ""
    decreases |os|
  {
    if os == [] {
    } else {
      if i == 0 { NoneRejected(os[1..]); } else { OnlyEmptyRejected(os[1..], i - 1); }
    }
  }

  lemma {:induction false} NoneRejected(os: seq<Outcome>)
    requires forall o | o in os :: IsAccepted(o)
    ensures FirstRejected(os, "") == ""
  {
    if os == [] {
    } else {
      assert os[0] in os && forall o | o in os[1..] :: o in os;
      NoneRejected(os[1..]);
    }
  }

  /** Without I/O failures every transaction, however it ends, leaves no reply unread. */
  lemma ReliableStaysAligned(net: Net, l: Link, rs: seq<Recipient>, extensions: Extensions, options: SendOptions,
                             autoBdat: bool, payload: Payload)
    requires Reliable(net) && Unread(l) == 0
    ensures Unread(Run(net, l, rs, extensions, options, autoBdat, payload).link) == 0
  {
    hide Transmit, Sequential, Pipelined, FirstRejection, FirstRejected, ServerOutcomes, ChooseTransfer, Reliable;
    var e := SendEnvelope(net, l, rs, options.requireAll, PIPELINING in extensions);
    SequentialMeets(net, l, rs, options.requireAll);
    PipelinedMeets(net, l, rs, options.requireAll);
    ResetWorks(net, e.link);
    hide Reset;
    TransmitLeaves(net, e.link, ChooseTransfer(extensions, options, autoBdat, payload), ChunksOf(payload));
  }

  // ---------------------------------------------------------------- delivery

  function BdatCommands(plan: seq<Chunk>): (commands: seq<Command>)
    ensures |commands| == |plan|
  {
    if plan == [] then [] else [BdatCommand(plan[0])] + BdatCommands(plan[1..])
  }

  /** The commands that carry the message. */
  function TransferCommands(transfer: Transfer, chunks: seq<Bytes>): seq<Command> {
    match transfer
    case ViaData => [Data, Message(Framed(Joined(chunks)))]
    case ViaSingleBdat => [BdatCommand(Chunk(|Joined(chunks)|, true, Joined(chunks)))]
    case ViaChunkedBdat(size) => if size <= 0 then [] else BdatCommands(Plan(chunks, size))
  }

  /** What a server takes out of one command as part of the message; it ends lines of DATA at LF. */
  function TakenFrom(c: Command): Bytes {
    match c
    case Message(wire) =>
      var r := Receive(wire, false);
      if r.Some? then r.value.message else []
    case BdatCommand(chunk) => chunk.payload
    case _ => []
  }

  function Taken(commands: seq<Command>): Bytes {
    if commands == [] then [] else TakenFrom(commands[0]) + Taken(commands[1..])
  }

  /** `s` answered a transfer: these commands went out, and its code is the last reply read. */
  ghost predicate Delivered(net: Net, l: Link, commands: seq<Command>, s: Step<Result<int, Failure>>) {
    s.value.Ok? ==>
      && s.link.sent == l.sent + commands && 0 < s.link.read <= |s.link.sent|
      && IsSuccess(s.value.value) && s.value.value == net.reply(s.link.sent[..s.link.read])
  }

  lemma ChunkDelivered(net: Net, l: Link, chunk: Chunk)
    requires Sane(l)
    ensures Delivered(net, l, [BdatCommand(chunk)], SendChunk(net, l, chunk))
  {
    hide Blocks;
    BlocksLeave(net, Write(net, l, [BdatCommand(chunk)]).link, if chunk.payload == [] then 0 else 1);
  }

  lemma {:induction false} ChunksDelivered(net: Net, l: Link, plan: seq<Chunk>)
    requires Sane(l) && plan != []
    ensures Delivered(net, l, BdatCommands(plan), SendChunks(net, l, plan))
    decreases |plan|
  {
    hide SendChunk, IsSuccess;
    ChunkDelivered(net, l, plan[0]);
    ChunkLeaves(net, l, plan[0]);
    var first := SendChunk(net, l, plan[0]);
    if |plan| == 1 {
      assert BdatCommands(plan) == [BdatCommand(plan[0])] by { assert plan[1..] == []; }
    } else if first.value.Ok? {
      ChunksDelivered(net, first.link, plan[1..]);
      assert l.sent + [BdatCommand(plan[0])] + BdatCommands(plan[1..]) == l.sent + BdatCommands(plan);
    }
  }

  lemma MessageDelivered(net: Net, l: Link, chunks: seq<Bytes>)
    requires Sane(l)
    ensures Delivered(net, l, [Data, Message(Framed(Joined(chunks)))], SendMessage(net, l, chunks))
  {
    hide Blocks, Framed, Padding, Joined, IsSuccess;
    var go := Read(net, Write(net, l, [Data]).link);
    var m := Message(Framed(Joined(chunks)));
    BlocksLeave(net, go.link, |chunks| + (if Padding(Joined(chunks)) == [] then 0 else 1));
    assert l.sent + [Data] + [m] == l.sent + [Data, m];
  }

  lemma TransmitDelivers(net: Net, l: Link, transfer: Transfer, chunks: seq<Bytes>)
    requires Sane(l)
    ensures Delivered(net, l, TransferCommands(transfer, chunks), Transmit(net, l, transfer, chunks))
  {
    hide SendMessage, SendChunk, SendChunks, Plan, Joined, Delivered, BdatCommands;
    match transfer
    case ViaData => MessageDelivered(net, l, chunks);
    case ViaSingleBdat => ChunkDelivered(net, l, Chunk(|Joined(chunks)|, true, Joined(chunks)));
    case ViaChunkedBdat(size) =>
      if size > 0 {
        ChunksDelivered(net, l, Plan(chunks, size));
      } else {
        assert Delivered(net, l, [], Transmit(net, l, transfer, chunks)) by { NoneDelivered(net, l); }
      }
  }

  lemma NoneDelivered(net: Net, l: Link)
    ensures Delivered(net, l, [], Step(l, Err(InvalidChunkSize)))
  {
  }

  lemma {:induction false} BdatTaken(plan: seq<Chunk>)
    ensures Taken(BdatCommands(plan)) == Payloads(plan)
  {
    if plan == [] {
    } else {
      BdatTaken(plan[1..]);
      assert BdatCommands(plan)[1..] == BdatCommands(plan[1..]);
    }
  }

  lemma TransferCarries(transfer: Transfer, chunks: seq<Bytes>)
    requires transfer.ViaChunkedBdat? ==> transfer.chunkSize > 0
    ensures Taken(TransferCommands(transfer, chunks))
         == if transfer.ViaData? then Body(Joined(chunks)) else Joined(chunks)
  {
    hide Plan, Joined, Payloads, Receive, Framed, Body, BdatCommands;
    var d := Joined(chunks);
    match transfer
    case ViaData =>
      LenientReceiverRecovers(d, []);
      assert Framed(d) + [] == Framed(d);
      TakenOne(Message(Framed(d)));
      assert [Data, Message(Framed(d))][1..] == [Message(Framed(d))];
    case ViaSingleBdat =>
      TakenOne(BdatCommand(Chunk(|d|, true, d)));
    case ViaChunkedBdat(size) =>
      BdatTaken(Plan(chunks, size));
      PlanCarriesStream(chunks, size);
  }

  lemma TakenOne(c: Command)
    ensures Taken([c]) == TakenFrom(c)
  {
    assert [c][1..] == [];
  }

  /**
   * A transaction that returns normally has delivered its message, whatever
   * failed in between: the last commands the server got are those of the chosen
   * transfer, what it takes out of them is the payload (for DATA, completed to
   * whole lines), and when no reply is left unread the success reported is the
   * server's answer to the last of them.
   */
  lemma AcceptedIsDelivered(net: Net, l: Link, rs: seq<Recipient>, extensions: Extensions, options: SendOptions,
                            autoBdat: bool, payload: Payload)
    requires Sane(l) && Run(net, l, rs, extensions, options, autoBdat, payload).value.Ok?
    ensures var r := Run(net, l, rs, extensions, options, autoBdat, payload);
      var transfer, d := ChooseTransfer(extensions, options, autoBdat, payload), Joined(ChunksOf(payload));
      var t := TransferCommands(transfer, ChunksOf(payload));
      && |t| <= |r.link.sent| && r.link.sent[|r.link.sent| - |t|..] == t
      && Taken(t) == (if transfer.ViaData? then Body(d) else d)
      && IsSuccess(r.value.value.code)
      && (Unread(r.link) == 0 ==> r.value.value.code == net.reply(r.link.sent))
  {
    hide SendEnvelope, ChooseTransfer, ChunksOf, TransferCommands, IsSuccess, Taken, Body, Joined, Transmit;
    var transfer, chunks := ChooseTransfer(extensions, options, autoBdat, payload), ChunksOf(payload);
    var e := SendEnvelope(net, l, rs, options.requireAll, PIPELINING in extensions);
    EnvelopeLeaves(net, l, rs, options.requireAll, PIPELINING in extensions);
    TransmitDelivers(net, e.link, transfer, chunks);
    var s := Transmit(net, e.link, transfer, chunks);
    assert s.link.sent[..|s.link.sent|] == s.link.sent;
    OnlyGoodSizes(net, e.link, transfer, chunks);
    TransferCarries(transfer, chunks);
  }

  lemma OnlyGoodSizes(net: Net, l: Link, transfer: Transfer, chunks: seq<Bytes>)
    requires Transmit(net, l, transfer, chunks).value.Ok?
    ensures transfer.ViaChunkedBdat? ==> transfer.chunkSize > 0
  {
  }

  // ------------------------------------------------- nothing is sent for nobody

  /** A command that carries the message, or announces it. */
  predicate IsTransfer(c: Command) { c.Data? || c.Message? || c.BdatCommand? }

  predicate NoTransfer(commands: seq<Command>) { forall c | c in commands :: !IsTransfer(c) }

  /** The server answered some RCPT with a 2xx code. */
  ghost predicate SomeAccepted(os: seq<Outcome>) { exists o :: o in os && o.Answered? && 200 <= o.code < 300 }

  lemma {:induction false} AcceptedMeans(os: seq<Outcome>)
    ensures AcceptedCount(os) > 0 <==> SomeAccepted(os)
  {
    if os == [] {
    } else {
      AcceptedMeans(os[1..]);
      assert os == [os[0]] + os[1..];
      if IsAccepted(os[0]) { assert os[0] in os; }
    }
  }

  /** `l` has the commands of `before`, and behind them none that carries the message. */
  predicate OnlyEnvelope(before: Link, l: Link) {
    before.sent <= l.sent && NoTransfer(l.sent[|before.sent|..])
  }

  lemma WriteOnlyEnvelope(net: Net, before: Link, l: Link, commands: seq<Command>)
    requires OnlyEnvelope(before, l) && NoTransfer(commands)
    ensures OnlyEnvelope(before, Write(net, l, commands).link)
  {
    assert (l.sent + commands)[|before.sent|..] == l.sent[|before.sent|..] + commands;
  }

  lemma ResetOnlyEnvelope(net: Net, before: Link, l: Link)
    requires OnlyEnvelope(before, l)
    ensures OnlyEnvelope(before, Reset(net, l))
  {
    WriteOnlyEnvelope(net, before, l, [Rset]);
    hide OnlyEnvelope, Write;
    assert Reset(net, l).sent == Write(net, l, [Rset]).link.sent;
    SameSent(before, Write(net, l, [Rset]).link, Reset(net, l));
  }

  lemma SameSent(before: Link, a: Link, b: Link)
    requires OnlyEnvelope(before, a) && a.sent == b.sent
    ensures OnlyEnvelope(before, b)
  {
  }

  lemma {:induction false} SequentialOnlyEnvelope(net: Net, before: Link, l: Link, rs: seq<Recipient>, requireAll: bool, done: seq<Outcome>)
    requires OnlyEnvelope(before, l)
    ensures OnlyEnvelope(before, SendRcpts(net, l, rs, requireAll, done).link)
    decreases |rs|
  {
    hide OnlyEnvelope, Write, Reset;
    if rs == [] {
    } else {
      WriteOnlyEnvelope(net, before, l, [Rcpt(rs[0])]);
      var rcpt := SendRcpt(net, l, rs[0]);
      SameSent(before, Write(net, l, [Rcpt(rs[0])]).link, rcpt.link);
      if !IsAccepted(rcpt.value) && requireAll {
        ResetOnlyEnvelope(net, before, rcpt.link);
      } else {
        SequentialOnlyEnvelope(net, before, rcpt.link, rs[1..], requireAll, done + [rcpt.value]);
      }
    }
  }

  lemma {:induction false} RepliesSendNothing(net: Net, l: Link, rs: seq<Recipient>, done: seq<Outcome>)
    ensures ReadRcpts(net, l, rs, done).link.sent == l.sent
    decreases |rs|
  {
    if rs == [] {
    } else {
      var rcpt := ReadRcpt(net, l, rs[0]);
      if !rcpt.value.ReadFailed? { RepliesSendNothing(net, rcpt.link, rs[1..], done + [rcpt.value]); }
    }
  }

  /** No envelope announces or carries the message. */
  lemma EnvelopeOnly(net: Net, l: Link, rs: seq<Recipient>, requireAll: bool, pipelining: bool)
    ensures OnlyEnvelope(l, SendEnvelope(net, l, rs, requireAll, pipelining).link)
  {
    hide SendRcpts, ReadRcpts, FirstRejected, Reset, Write, OnlyEnvelope;
    var commands := if pipelining then [Mail] + RcptCommands(rs) else [Mail];
    EmptyEnvelope(l);
    WriteOnlyEnvelope(net, l, l, commands);
    var w := Write(net, l, commands).link;
    var mail := Read(net, w).link;
    SameSent(l, w, mail);
    if pipelining {
      RepliesSendNothing(net, mail, rs, []);
      var read := ReadRcpts(net, mail, rs, []).link;
      SameSent(l, mail, read);
      ResetOnlyEnvelope(net, l, read);
    } else {
      SequentialOnlyEnvelope(net, l, mail, rs, requireAll, []);
    }
  }

  lemma EmptyEnvelope(l: Link)
    ensures OnlyEnvelope(l, l)
  {
  }

  /**
   * The message goes to somebody or not at all, whatever fails. When a
   * transaction returns normally, the server accepted some recipient; and when
   * it accepted none of them, the outcomes are what is thrown, and neither DATA
   * nor BDAT was sent.
   */
  lemma NothingForNobody(net: Net, l: Link, rs: seq<Recipient>, extensions: Extensions, options: SendOptions,
                         autoBdat: bool, payload: Payload)
    ensures var r := Run(net, l, rs, extensions, options, autoBdat, payload);
      var e := SendEnvelope(net, l, rs, options.requireAll, PIPELINING in extensions);
      && (r.value.Ok? ==> SomeAccepted(r.value.value.outcomes))
      && (rs != [] && e.value.Ok? && !SomeAccepted(e.value.value) ==>
            r.value == Err(AllRejected(e.value.value)) && OnlyEnvelope(l, r.link))
      && (rs == [] ==> r.value == Err(NoRecipients) && r.link == l)
      && (e.value.Err? ==> OnlyEnvelope(l, r.link))
  {
    hide Transmit, SendEnvelope, ChooseTransfer, Reset, SomeAccepted, OnlyEnvelope;
    var e := SendEnvelope(net, l, rs, options.requireAll, PIPELINING in extensions);
    EmptyEnvelope(l);
    EnvelopeOnly(net, l, rs, options.requireAll, PIPELINING in extensions);
    ResetOnlyEnvelope(net, l, e.link);
    if e.value.Ok? { AcceptedMeans(e.value.value); }
  }

  // ------------------------------------------------------- when BDAT is used

  lemma {:induction false} ChunksArePrefix(net: Net, l: Link, plan: seq<Chunk>) returns (n: nat)
    requires plan != []
    ensures n <= |plan| && SendChunks(net, l, plan).link.sent == l.sent + BdatCommands(plan)[..n]
    decreases |plan|
  {
    hide SendChunk;
    var first := SendChunk(net, l, plan[0]);
    var one := ChunkIsPrefix(net, l, plan[0]);
    var all := BdatCommands(plan);
    if |plan| == 1 || first.value.Err? {
      n := one;
      assert all[..1] == [BdatCommand(plan[0])] && all[..0] == [];
    } else {
      SuccessSends(net, l, plan[0]);
      var more := ChunksArePrefix(net, first.link, plan[1..]);
      n := more + 1;
      assert all[..n] == [BdatCommand(plan[0])] + BdatCommands(plan[1..])[..more];
    }
  }

  lemma ChunkIsPrefix(net: Net, l: Link, chunk: Chunk) returns (n: nat)
    ensures n <= 1 && SendChunk(net, l, chunk).link.sent == l.sent + [BdatCommand(chunk)][..n]
  {
    var w := Write(net, l, [BdatCommand(chunk)]);
    BlocksLeave(net, w.link, if chunk.payload == [] then 0 else 1);
    hide Blocks;
    n := if w.link.sent == l.sent then 0 else 1;
    assert [BdatCommand(chunk)][..1] == [BdatCommand(chunk)] && l.sent + [] == l.sent;
  }

  lemma SuccessSends(net: Net, l: Link, chunk: Chunk)
    requires SendChunk(net, l, chunk).value.Ok?
    ensures SendChunk(net, l, chunk).link.sent == l.sent + [BdatCommand(chunk)]
  {
    BlocksLeave(net, Write(net, l, [BdatCommand(chunk)]).link, if chunk.payload == [] then 0 else 1);
    hide Blocks;
  }

  lemma MessageIsPrefix(net: Net, l: Link, chunks: seq<Bytes>) returns (n: nat)
    ensures n <= 2
    ensures SendMessage(net, l, chunks).link.sent == l.sent + [Data, Message(Framed(Joined(chunks)))][..n]
  {
    hide Blocks, Framed, Joined, Padding, IsIntermediate, IsSuccess;
    var t := [Data, Message(Framed(Joined(chunks)))];
    var go := Read(net, Write(net, l, [Data]).link);
    BlocksLeave(net, go.link, |chunks| + (if Padding(Joined(chunks)) == [] then 0 else 1));
    n := |SendMessage(net, l, chunks).link.sent| - |l.sent|;
    assert t[..0] == [] && t[..1] == [Data] && t[..2] == t;
    assert l.sent + [Data] + [t[1]] == l.sent + t;
  }

  /** A transfer sends its commands in order, up to where it stops. */
  lemma TransmitIsPrefix(net: Net, l: Link, transfer: Transfer, chunks: seq<Bytes>) returns (n: nat)
    ensures var t := TransferCommands(transfer, chunks);
      n <= |t| && Transmit(net, l, transfer, chunks).link.sent == l.sent + t[..n]
  {
    hide SendMessage, SendChunk, SendChunks, Plan, Joined, BdatCommands;
    match transfer
    case ViaData => n := MessageIsPrefix(net, l, chunks);
    case ViaSingleBdat => n := ChunkIsPrefix(net, l, Chunk(|Joined(chunks)|, true, Joined(chunks)));
    case ViaChunkedBdat(size) =>
      n := 0;
      if size > 0 {
        n := ChunksArePrefix(net, l, Plan(chunks, size));
        BdatCommandsAre(Plan(chunks, size));
      }
  }

  lemma {:induction false} BdatCommandsAre(plan: seq<Chunk>)
    ensures forall i | 0 <= i < |plan| :: BdatCommands(plan)[i] == BdatCommand(plan[i])
  {
    if plan == [] {
    } else {
      BdatCommandsAre(plan[1..]);
    }
  }

  /** A BDAT command of this chunk is what the options, the extensions and the payload ask for. */
  predicate Wanted(c: Chunk, extensions: Extensions, options: SendOptions, autoBdat: bool, payload: Payload) {
    && "CHUNKING" in extensions
    && (if options.preferBdat then c.size <= (if options.chunkSize.Some? then options.chunkSize.value else 65536)
        else autoBdat && payload.Whole? && c == Chunk(|payload.bytes|, true, payload.bytes) && c.size > 1048576)
  }

  /**
   * However a transaction ends: BDAT is sent only to a server that advertises
   * CHUNKING, in chunks of the wanted size when BDAT was asked for, and otherwise
   * only for one buffer over 1 MiB, in one piece, by the call that allows it.
   */
  lemma BdatIsWanted(net: Net, l: Link, rs: seq<Recipient>, extensions: Extensions, options: SendOptions,
                     autoBdat: bool, payload: Payload, c: Chunk)
    ensures var r := Run(net, l, rs, extensions, options, autoBdat, payload);
      && l.sent <= r.link.sent
      && (BdatCommand(c) in r.link.sent[|l.sent|..] ==> Wanted(c, extensions, options, autoBdat, payload))
  {
    hide Transmit, SendEnvelope, ChooseTransfer, Reset, TransferCommands, Wanted, OnlyEnvelope, ChunksOf;
    var e := SendEnvelope(net, l, rs, options.requireAll, PIPELINING in extensions);
    var transfer, chunks := ChooseTransfer(extensions, options, autoBdat, payload), ChunksOf(payload);
    EmptyEnvelope(l);
    EnvelopeOnly(net, l, rs, options.requireAll, PIPELINING in extensions);
    ResetOnlyEnvelope(net, l, e.link);
    var n := TransmitIsPrefix(net, e.link, transfer, chunks);
    var t := TransferCommands(transfer, chunks);
    TransferIsWanted(extensions, options, autoBdat, payload, c);
    EnvelopeHasNone(l, e.link, t[..n], c);
    EnvelopeHasNone(l, Reset(net, e.link), [], c);
    EnvelopeHasNone(l, e.link, [], c);
    EnvelopeHasNone(l, l, [], c);
    assert Reset(net, e.link).sent + [] == Reset(net, e.link).sent && e.link.sent + [] == e.link.sent && l.sent + [] == l.sent;
  }

  lemma EnvelopeHasNone(before: Link, l: Link, more: seq<Command>, c: Chunk)
    requires OnlyEnvelope(before, l)
    ensures before.sent <= l.sent + more
    ensures BdatCommand(c) in (l.sent + more)[|before.sent|..] ==> BdatCommand(c) in more
  {
    assert (l.sent + more)[|before.sent|..] == l.sent[|before.sent|..] + more;
  }

  lemma TransferIsWanted(extensions: Extensions, options: SendOptions, autoBdat: bool, payload: Payload, c: Chunk)
    ensures var t := TransferCommands(ChooseTransfer(extensions, options, autoBdat, payload), ChunksOf(payload));
      BdatCommand(c) in t ==> Wanted(c, extensions, options, autoBdat, payload)
  {
    hide Plan, BdatCommands, Framed, Joined;
    var transfer, chunks := ChooseTransfer(extensions, options, autoBdat, payload), ChunksOf(payload);
    match transfer
    case ViaData =>
    case ViaSingleBdat => JoinedOne(payload.bytes);
    case ViaChunkedBdat(size) =>
      if size > 0 {
        PlanCarriesStream(chunks, size);
        BdatCommandsAre(Plan(chunks, size));
      }
  }

  // -------------------------------------------- a transaction and the server

  /** The last reply is the verdict. */
  predicate Verdict(code: int, v: Result<int, Failure>) {
    v == if 200 <= code < 300 then Ok(code) else Err(MessageRejected(code))
  }

  /** `v` is what the server's answers make of a transfer that starts behind the commands `sent`. */
  ghost predicate Answers(net: Net, sent: seq<Command>, transfer: Transfer, chunks: seq<Bytes>, v: Result<int, Failure>) {
    match transfer
    case ViaData =>
      var go := net.reply(sent + [Data]);
      if 300 <= go < 400 then Verdict(net.reply(sent + [Data, Message(Framed(Joined(chunks)))]), v)
      else v == Err(DataFailed(go))
    case ViaSingleBdat => Verdict(net.reply(sent + [BdatCommand(Chunk(|Joined(chunks)|, true, Joined(chunks)))]), v)
    case ViaChunkedBdat(size) =>
      if size <= 0 then v == Err(InvalidChunkSize)
      else exists k :: AnswersAt(net, sent, Plan(chunks, size), k, v)
  }

  /** The answer to command `i` of a plan that starts behind `sent`. */
  ghost function ReplyTo(net: Net, sent: seq<Command>, plan: seq<Chunk>, i: nat): int
    requires i < |plan|
  {
    net.reply(sent + BdatCommands(plan[..i + 1]))
  }

  /** The first `k` commands succeed, and the next one is refused or the last of all. */
  ghost predicate AnswersAt(net: Net, sent: seq<Command>, plan: seq<Chunk>, k: nat, v: Result<int, Failure>) {
    && k < |plan| && Verdict(ReplyTo(net, sent, plan, k), v)
    && (forall i | 0 <= i < k :: 200 <= ReplyTo(net, sent, plan, i) < 300)
    && (v.Ok? ==> k == |plan| - 1)
  }

  lemma CommandAnswered(net: Net, l: Link, c: Command) returns (l': Link)
    requires Reliable(net) && Unread(l) == 0
    ensures l'.sent == l.sent + [c] && Unread(l') == 0
    ensures Write(net, l, [c]).value && Read(net, Write(net, l, [c]).link) == Step(l', Some(net.reply(l.sent + [c])))
  {
    ReplyIsItsOwn(net, l, c);
    l' := Read(net, Write(net, l, [c]).link).link;
  }

  /** Blocks change the write counter only. */
  lemma {:induction false} BlocksOnlyCount(net: Net, l: Link, n: nat)
    requires Reliable(net)
    ensures Blocks(net, l, n) == Step(l.(writes := l.writes + n), true)
    decreases n
  {
    hide Reliable;
    if n == 0 {
    } else {
      WriteWorks(net, l, []);
      BlocksOnlyCount(net, l.(writes := l.writes + 1), n - 1);
    }
  }

  lemma ChunkMeets(net: Net, l: Link, chunk: Chunk)
    requires Reliable(net) && Unread(l) == 0
    ensures var s := SendChunk(net, l, chunk);
      s.link.sent == l.sent + [BdatCommand(chunk)] && Unread(s.link) == 0
      && Verdict(net.reply(l.sent + [BdatCommand(chunk)]), s.value)
  {
    hide Blocks;
    var l1 := l.(sent := l.sent + [BdatCommand(chunk)], writes := l.writes + 1);
    WriteWorks(net, l, [BdatCommand(chunk)]);
    var n := if chunk.payload == [] then 0 else 1;
    BlocksOnlyCount(net, l1, n);
    assert l1.sent[..l.read + 1] == l1.sent;
    ReadWorks(net, l1.(writes := l1.writes + n), l1.sent);
  }

  lemma {:induction false} ChunksMeet(net: Net, l: Link, plan: seq<Chunk>) returns (k: nat)
    requires Reliable(net) && Unread(l) == 0 && plan != []
    ensures AnswersAt(net, l.sent, plan, k, SendChunks(net, l, plan).value)
    decreases |plan|
  {
    hide SendChunk, Reliable;
    var first := SendChunk(net, l, plan[0]);
    ChunkMeets(net, l, plan[0]);
    OneCommand(plan);
    if |plan| == 1 || first.value.Err? {
      k := 0;
    } else {
      var k' := ChunksMeet(net, first.link, plan[1..]);
      k := k' + 1;
      MoreCommands(l.sent, plan, k');
      forall i | 0 <= i < k ensures 200 <= ReplyTo(net, l.sent, plan, i) < 300 {
        if i > 0 {
          MoreCommands(l.sent, plan, i - 1);
          assert 200 <= ReplyTo(net, first.link.sent, plan[1..], i - 1) < 300;
        }
      }
    }
  }

  lemma OneCommand(plan: seq<Chunk>)
    requires plan != []
    ensures BdatCommands(plan[..1]) == [BdatCommand(plan[0])]
  {
    assert plan[..1][1..] == [];
  }

  lemma MoreCommands(sent: seq<Command>, plan: seq<Chunk>, i: nat)
    requires plan != [] && i < |plan| - 1
    ensures sent + [BdatCommand(plan[0])] + BdatCommands(plan[1..][..i + 1]) == sent + BdatCommands(plan[..i + 2])
  {
    assert plan[..i + 2][1..] == plan[1..][..i + 1];
  }

  lemma MessageMeets(net: Net, l: Link, chunks: seq<Bytes>)
    requires Reliable(net) && Unread(l) == 0
    ensures Answers(net, l.sent, ViaData, chunks, SendMessage(net, l, chunks).value)
  {
    hide Blocks, Framed, Padding, Joined;
    var go := CommandAnswered(net, l, Data);
    hide Write, Read, Reliable;
    if IsIntermediate(net.reply(l.sent + [Data])) {
      var d := Joined(chunks);
      var n := |chunks| + (if Padding(d) == [] then 0 else 1);
      BlocksOnlyCount(net, go, n);
      var m := Message(Framed(d));
      var end := CommandAnswered(net, go.(writes := go.writes + n), m);
      assert l.sent + [Data] + [m] == l.sent + [Data, m];
    }
  }

  /** A transfer against the server, on an aligned session without I/O failures. */
  lemma TransmitMeets(net: Net, l: Link, transfer: Transfer, chunks: seq<Bytes>)
    requires Reliable(net) && Unread(l) == 0
    ensures Answers(net, l.sent, transfer, chunks, Transmit(net, l, transfer, chunks).value)
  {
    hide SendMessage, SendChunk, SendChunks, Plan, Joined, Reliable, AnswersAt, Verdict, BdatCommands, Framed;
    match transfer
    case ViaData => MessageMeets(net, l, chunks);
    case ViaSingleBdat => ChunkMeets(net, l, Chunk(|Joined(chunks)|, true, Joined(chunks)));
    case ViaChunkedBdat(size) => if size > 0 { var k := ChunksMeet(net, l, Plan(chunks, size)); }
  }

  /** What the answers of the server make of a whole transaction. */
  ghost predicate Settles(net: Net, sent: seq<Command>, rs: seq<Recipient>, options: SendOptions, transfer: Transfer,
                          chunks: seq<Bytes>, v: Result<Report, Failure>)
  {
    var mail, os := net.reply(sent + [Mail]), ServerOutcomes(net, sent + [Mail], rs);
    var k := FirstRejection(os);
    if !(200 <= mail < 300) then v == Err(MailRejected(mail))
    else if options.requireAll && k < |os| then
      v.Err? && v.error.RecipientRejected? && v.error.recipient == rs[k] && os[..k + 1] <= v.error.outcomes <= os
    else if !SomeAccepted(os) then v == Err(AllRejected(os))
    else exists r :: Answers(net, sent + [Mail] + RcptCommands(rs), transfer, chunks, r) && v == Reported(os, r)
  }

  function Reported(os: seq<Outcome>, r: Result<int, Failure>): Result<Report, Failure> {
    if r.Err? then Err(r.error) else Ok(Report(os, r.value))
  }

  /** On an aligned session without I/O failures, the answers of the server settle the transaction. */
  lemma RunMeets(net: Net, l: Link, rs: seq<Recipient>, extensions: Extensions, options: SendOptions,
                 autoBdat: bool, payload: Payload)
    requires Reliable(net) && Unread(l) == 0 && rs != [] && "" !in rs
    ensures Settles(net, l.sent, rs, options, ChooseTransfer(extensions, options, autoBdat, payload), ChunksOf(payload),
                    Run(net, l, rs, extensions, options, autoBdat, payload).value)
  {
    hide Transmit, Sequential, Pipelined, FirstRejection, FirstRejected, ServerOutcomes, ChooseTransfer, Reliable, Answers,
      Reset, SomeAccepted, RcptCommands, AcceptedCount;
    var pipelining := PIPELINING in extensions;
    var e := SendEnvelope(net, l, rs, options.requireAll, pipelining);
    EnvelopeMeets(net, l, rs, options.requireAll, pipelining);
    if e.value.Ok? {
      AcceptedMeans(e.value.value);
      TransmitMeets(net, e.link, ChooseTransfer(extensions, options, autoBdat, payload), ChunksOf(payload));
    }
  }

  lemma EnvelopeMeets(net: Net, l: Link, rs: seq<Recipient>, requireAll: bool, pipelining: bool)
    requires Reliable(net) && Unread(l) == 0 && "" !in rs
    ensures var e := SendEnvelope(net, l, rs, requireAll, pipelining);
      var mail, os := net.reply(l.sent + [Mail]), ServerOutcomes(net, l.sent + [Mail], rs);
      var k := FirstRejection(os);
      && Unread(e.link) == 0
      && (!IsSuccess(mail) ==> e.value == Err(MailRejected(mail)))
      && (IsSuccess(mail) && (!requireAll || k == |os|) ==>
            e.value == Ok(os) && e.link.sent == l.sent + [Mail] + RcptCommands(rs))
      && (IsSuccess(mail) && requireAll && k < |os| ==>
            e.value.Err? && e.value.error.RecipientRejected? && e.value.error.recipient == rs[k]
            && os[..k + 1] <= e.value.error.outcomes <= os)
  {
    hide Sequential, Pipelined, FirstRejected, FirstRejection, ServerOutcomes, RcptCommands, Reliable;
    SequentialMeets(net, l, rs, requireAll);
    PipelinedMeets(net, l, rs, requireAll);
    FirstRejectedIs(ServerOutcomes(net, l.sent + [Mail], rs), rs);
  }

  // ------------------------------------------------------------------ class

  /**
   * The session: its extensions and last reply, and the state of its connection.
   * Every method does what its function above says, and says what that means for
   * the replies still unread.
   */
  class SmtpSession {
    const net: Net
    var extensions: Extensions
    var lastResponse: Option<int>
    var connection: Link

    constructor (net: Net, extensions: Extensions)
      ensures this.net == net && this.extensions == extensions && lastResponse == None
      ensures connection == Link([], 0, 0, 0)
    {
      this.net, this.extensions := net, extensions;
      lastResponse, connection := None, Link([], 0, 0, 0);
    }

    predicate HasExtension(name: string)
      reads this
    {
      name in extensions
    }

    /** Also when it fails, the octets may be delivered; then the server owes the replies all the same. */
    method WriteCommands(commands: seq<Command>) returns (ok: bool)
      modifies this`connection
      ensures Step(connection, ok) == Write(net, old(connection), commands)
      ensures connection.read == old(connection.read)
      ensures Unread(connection) == old(Unread(connection))
        + (if ok || net.delivers(old(connection.writes)) then |commands| else 0)
    {
      ok := !net.writeFails(connection.writes);
      if ok || net.delivers(connection.writes) { connection := connection.(sent := connection.sent + commands); }
      connection := connection.(writes := connection.writes + 1);
    }

    method WriteBlocks(n: nat) returns (ok: bool)
      modifies this`connection
      ensures Step(connection, ok) == Blocks(net, old(connection), n)
      ensures Unread(connection) == old(Unread(connection))
    {
      var k := n;
      while k > 0
        invariant Blocks(net, connection, k) == Blocks(net, old(connection), n)
        invariant Unread(connection) == old(Unread(connection))
      {
        var failed := net.writeFails(connection.writes);
        connection := connection.(writes := connection.writes + 1);
        if failed { return false; }
        k := k - 1;
      }
      return true;
    }

    /** A reply is taken at most once, in order, and becomes the last response. */
    method ReadReply() returns (code: Option<int>)
      modifies this`connection, this`lastResponse
      ensures Step(connection, code) == Read(net, old(connection))
      ensures lastResponse == if code.Some? then code else old(lastResponse)
      ensures code.Some? ==> Unread(connection) == old(Unread(connection)) - 1
      ensures code.Some? ==> code.value == net.reply(connection.sent[..connection.read])
      ensures old(Sane(connection)) ==> Sane(connection)
    {
      var due := connection.read < |connection.sent|;
      var failed := net.readFails(connection.tries);
      var consumed := net.consumes(connection.tries);
      connection := connection.(tries := connection.tries + 1);
      if !due { return None; }
      if failed && !consumed { return None; }
      connection := connection.(read := connection.read + 1);
      if failed { return None; }
      code := Some(net.reply(connection.sent[..connection.read]));
      lastResponse := code;
    }

    /** Best effort: when nothing fails, the session is as aligned as before. */
    method BestEffortReset()
      modifies this`connection, this`lastResponse
      ensures connection == Reset(net, old(connection))
      ensures old(Sane(connection)) ==> Sane(connection)
      ensures Reliable(net) && old(Sane(connection)) ==> Unread(connection) == old(Unread(connection))
    {
      var ok := WriteCommands([Rset]);
      if ok { var _ := ReadReply(); }
    }

    /** The backlog grows exactly by what the outcome owes. */
    method SendRcptTo(r: Recipient) returns (o: Outcome)
      requires Sane(connection)
      modifies this`connection, this`lastResponse
      ensures Step(connection, o) == SendRcpt(net, old(connection), r)
      ensures o.recipient == r && Sane(connection)
      ensures Unread(connection) == old(Unread(connection)) + OwedFor(o)
    {
      var written := WriteCommands([Rcpt(r)]);
      if !written { return WriteFailed(r, net.delivers(connection.writes - 1)); }
      var read := connection.read;
      var code := ReadReply();
      o := if code.None? then ReadFailed(r, connection.read > read) else Answered(r, code.value);
    }

    method SendEnvelopeSequential(rs: seq<Recipient>, requireAll: bool) returns (e: Envelope)
      requires Sane(connection)
      modifies this`connection, this`lastResponse
      ensures Step(connection, e) == Sequential(net, old(connection), rs, requireAll)
      ensures Sane(connection)
      ensures e.Ok? ==> |e.value| == |rs| && Unread(connection) == old(Unread(connection)) + Owed(e.value)
    {
      hide SendRcpt, Reset, Write, Read, Owed, OwedFor;
      var ok := WriteCommands([Mail]);
      if !ok { return Err(IoFailure); }
      var code := ReadReply();
      if code.None? { return Err(IoFailure); }
      if !IsSuccess(code.value) { return Err(MailRejected(code.value)); }
      var outcomes: seq<Outcome> := [];
      NothingOwed();
      for i := 0 to |rs|
        invariant SendRcpts(net, connection, rs[i..], requireAll, outcomes)
               == Sequential(net, old(connection), rs, requireAll)
        invariant Sane(connection) && |outcomes| == i
        invariant Unread(connection) == old(Unread(connection)) + Owed(outcomes)
      {
        assert rs[i..][1..] == rs[i + 1..];
        var outcome := SendRcptTo(rs[i]);
        OwedAppend(outcomes, outcome);
        outcomes := outcomes + [outcome];
        if !IsAccepted(outcome) && requireAll {
          BestEffortReset();
          return Err(RecipientRejected(rs[i], outcomes));
        }
      }
      return Ok(outcomes);
    }

    method SendEnvelopePipelined(rs: seq<Recipient>, requireAll: bool) returns (e: Envelope)
      requires Sane(connection)
      modifies this`connection, this`lastResponse
      ensures Step(connection, e) == Pipelined(net, old(connection), rs, requireAll)
      ensures Sane(connection)
      ensures e.Ok? ==> |e.value| <= |rs|
      ensures e.Ok? ==> Unread(connection) == old(Unread(connection)) + Owed(e.value) + (|rs| - |e.value|)
    {
      hide Reset, Write, Read, Owed;
      EnvelopeLeaves(net, connection, rs, requireAll, true);
      var ok := WriteCommands([Mail] + RcptCommands(rs));
      if !ok { return Err(IoFailure); }
      var mail := ReadReply();
      if mail.None? { return Err(IoFailure); }
      var outcomes: seq<Outcome> := [];
      var firstRejected: Recipient := "";
      ghost var start := connection;
      for i := 0 to |rs|
        invariant ReadRcpts(net, connection, rs[i..], outcomes) == ReadRcpts(net, start, rs, [])
        invariant FirstRejected(outcomes, "") == firstRejected
        invariant forall o | o in outcomes :: o.Answered?
      {
        assert rs[i..][1..] == rs[i + 1..];
        var read := connection.read;
        var code := ReadReply();
        if code.None? {
          outcomes := outcomes + [ReadFailed(rs[i], connection.read > read)];
          return Ok(outcomes);
        }
        var outcome := Answered(rs[i], code.value);
        FirstRejectedNext(outcomes, outcome, "");
        outcomes := outcomes + [outcome];
        if !IsAccepted(outcome) && firstRejected == "" { firstRejected := outcome.recipient; }
      }
      assert outcomes != [] ==> outcomes[|outcomes| - 1] in outcomes;
      if !IsSuccess(mail.value) { return Err(MailRejected(mail.value)); }
      if requireAll && firstRejected != "" {
        BestEffortReset();
        return Err(RecipientRejected(firstRejected, outcomes));
      }
      return Ok(outcomes);
    }

    /** A success means that both commands went out and their replies were taken; the last one is the verdict. */
    method SendDataMessage(chunks: seq<Bytes>) returns (r: Result<int, Failure>)
      requires Sane(connection)
      modifies this`connection, this`lastResponse
      ensures Step(connection, r) == SendMessage(net, old(connection), chunks)
      ensures r.Ok? ==> connection.sent == old(connection.sent) + [Data, Message(Framed(Joined(chunks)))]
      ensures r.Ok? ==> Unread(connection) == old(Unread(connection)) && IsSuccess(r.value) && lastResponse == Some(r.value)
    {
      hide Write, Read, Blocks, IsSuccess, Framed, Joined, Padding;
      MessageLeaves(net, connection, chunks);
      MessageDelivered(net, connection, chunks);
        var ok := WriteCommands([Data]);
      if !ok { return Err(IoFailure); }
      var go := ReadReply();
      if go.None? { return Err(IoFailure); }
      if !IsIntermediate(go.value) { return Err(DataFailed(go.value)); }
      var d := Joined(chunks);
      ok := WriteBlocks(|chunks| + (if Padding(d) == [] then 0 else 1));
      if !ok { return Err(IoFailure); }
      ok := WriteCommands([Message(Framed(d))]);
      if !ok { return Err(IoFailure); }
      r := ReadFinalReply();
    }

    method ReadFinalReply() returns (r: Result<int, Failure>)
      modifies this`connection, this`lastResponse
      ensures Step(connection, r) == FinalReply(net, old(connection))
      ensures r.Ok? ==> IsSuccess(r.value) && lastResponse == Some(r.value)
      ensures r.Err? && r.error.MessageRejected? ==> lastResponse == Some(r.error.code)
    {
      var code := ReadReply();
      if code.None? { return Err(IoFailure); }
      if !IsSuccess(code.value) { return Err(MessageRejected(code.value)); }
      return Ok(code.value);
    }

    method SendBdat(chunk: Chunk) returns (r: Result<int, Failure>)
      requires Sane(connection)
      modifies this`connection, this`lastResponse
      ensures Step(connection, r) == SendChunk(net, old(connection), chunk)
      ensures Sane(connection)
      ensures r.Ok? ==> connection.sent == old(connection.sent) + [BdatCommand(chunk)]
      ensures r.Ok? ==> Unread(connection) == old(Unread(connection)) && IsSuccess(r.value) && lastResponse == Some(r.value)
    {
      hide Write, Read, Blocks, IsSuccess;
      ChunkLeaves(net, connection, chunk);
      ChunkDelivered(net, connection, chunk);
      var ok := WriteCommands([BdatCommand(chunk)]);
      if !ok { return Err(IoFailure); }
      ok := WriteBlocks(if chunk.payload == [] then 0 else 1);
      if !ok { return Err(IoFailure); }
      r := ReadFinalReply();
    }

    method SendBdatPlan(plan: seq<Chunk>) returns (r: Result<int, Failure>)
      requires plan != [] && Sane(connection)
      modifies this`connection, this`lastResponse
      ensures Step(connection, r) == SendChunks(net, old(connection), plan)
      ensures r.Ok? ==> connection.sent == old(connection.sent) + BdatCommands(plan)
      ensures r.Ok? ==> Unread(connection) == old(Unread(connection)) && IsSuccess(r.value) && lastResponse == Some(r.value)
    {
      hide SendChunk, BdatCommands, IsSuccess;
      ChunksLeave(net, connection, plan);
      ChunksDelivered(net, connection, plan);
      var k := 0;
      while true
        invariant k < |plan| && Sane(connection)
        invariant SendChunks(net, connection, plan[k..]) == SendChunks(net, old(connection), plan)
        decreases |plan| - k
      {
        assert plan[k..][1..] == plan[k + 1..];
        r := SendBdat(plan[k]);
        k := k + 1;
        if k == |plan| || r.Err? { return; }
      }
    }

    /**
     * One transaction. When it returns normally, the backlog has grown exactly by
     * what its outcomes owe, and the last response is the verdict on the message.
     */
    method RunTransaction(rs: seq<Recipient>, options: SendOptions, autoBdat: bool, payload: Payload)
      returns (r: Result<Report, Failure>)
      requires Sane(connection)
      modifies this`connection, this`lastResponse
      ensures Step(connection, r) == Run(net, old(connection), rs, extensions, options, autoBdat, payload)
      ensures r.Ok? ==> var os := r.value.outcomes;
        && Unread(connection) == old(Unread(connection)) + Owed(os) + (|rs| - |os|)
        && lastResponse == Some(r.value.code) && IsSuccess(r.value.code) && SomeAccepted(os)
      ensures var e := SendEnvelope(net, old(connection), rs, options.requireAll, PIPELINING in extensions).value;
        rs != [] && e.Ok? && !SomeAccepted(e.value) ==>
          r == Err(AllRejected(e.value)) && OnlyEnvelope(old(connection), connection)
    {
      NothingForNobody(net, connection, rs, extensions, options, autoBdat, payload);
      hide SomeAccepted, OnlyEnvelope;
      hide Sequential, Pipelined, SendMessage, SendChunk, SendChunks, Reset, Plan, Owed, BdatCommands, Framed, Joined,
        IsSuccess;
      if rs == [] { return Err(NoRecipients); }
      var e: Envelope;
      if HasExtension(PIPELINING) {
        e := SendEnvelopePipelined(rs, options.requireAll);
      } else {
        e := SendEnvelopeSequential(rs, options.requireAll);
      }
      if e.Err? { return Err(e.error); }
      if AcceptedCount(e.value) == 0 {
        BestEffortReset();
        return Err(AllRejected(e.value));
      }
      var end := SendPayload(options, autoBdat, payload);
      if end.Err? { return Err(end.error); }
      return Ok(Report(e.value, end.value));
    }

    /** The three-way branch of `runTransaction`. */
    method SendPayload(options: SendOptions, autoBdat: bool, payload: Payload) returns (r: Result<int, Failure>)
      requires Sane(connection)
      modifies this`connection, this`lastResponse
      ensures Step(connection, r)
           == Transmit(net, old(connection), ChooseTransfer(extensions, options, autoBdat, payload), ChunksOf(payload))
      ensures r.Ok? ==> Unread(connection) == old(Unread(connection)) && IsSuccess(r.value) && lastResponse == Some(r.value)
    {
      hide SendMessage, SendChunk, SendChunks, Plan, BdatCommands, Framed, Joined, IsSuccess;
      var chunks := ChunksOf(payload);
      if options.preferBdat && HasExtension(CHUNKING) {
        var size := if options.chunkSize.Some? then options.chunkSize.value else DEFAULT_BDAT_CHUNK_SIZE;
        if size <= 0 { return Err(InvalidChunkSize); }
        r := SendBdatPlan(Plan(chunks, size));
      } else if autoBdat && HasExtension(CHUNKING) && payload.Whole? && |payload.bytes| > AUTO_BDAT_THRESHOLD {
        JoinedOne(payload.bytes);
        r := SendBdat(Chunk(|payload.bytes|, true, payload.bytes));
      } else {
        r := SendDataMessage(chunks);
      }
    }
  }

  lemma {:induction false} FirstRejectedNext(os: seq<Outcome>, o: Outcome, found: Recipient)
    ensures FirstRejected(os + [o], found)
         == var f := FirstRejected(os, found); if !IsAccepted(o) && f == "" then o.recipient else f
  {
    if os == [] {
      assert os + [o] == [o];
      assert FirstRejected([o], found) == FirstRejected([o][1..], if !IsAccepted(o) && found == "" then o.recipient else found);
    } else {
      assert (os + [o])[1..] == os[1..] + [o];
      FirstRejectedNext(os[1..], o, if !IsAccepted(os[0]) && found == "" then os[0].recipient else found);
    }
  }
}
