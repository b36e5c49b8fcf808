# A verified model of the mail SDK

The project models the parts of the mail SDK that print and parse what goes over
the wire, and the two protocol state machines around them. It proves that what
one half writes the other half reads, and what every interleaving of the state
machines keeps.

| file | what it models |
|---|---|
| `Common.dfy`, `Strings.dfy`, `Utf8.dfy`, `Base64.dfy` | octets, code points, and the platform operations the components share |
| `Punycode.dfy`, `Idna.dfy`, `Domain.dfy` | internationalized labels, domain names and address literals |
| `PunycodeSamples.dfy`, `DomainSamples.dfy` | the digits and whole labels against what the standards spell out |
| `AddressLiterals.dfy` | exactly which IPv4 and IPv6 literals are accepted |
| `Pool.dfy` | the connection pool: a state machine over atomic steps, and the class whose methods are those steps |
| `DataPhase.dfy`, `Bdat.dfy` | dot-stuffing with its two kinds of receiver, and BDAT chunking |
| `Transaction.dfy`, `Replies.dfy` | envelopes and transfers against an arbitrary server, and the framing of replies |
| `QuotedPrintable.dfy`, `Headers.dfy`, `Disposition.dfy`, `Multipart.dfy`, `Mixed.dfy` | the MIME writer against the MIME reader |
| `EncodedWord.dfy` | RFC 2047 words, both ways |
| `AddressErrors.dfy`, `AddressGrammar.dfy`, `Address.dfy` | the address grammar as functions: a value and its size, or an error kind |
| `AddressReading.dfy`, `AddressRoundTrip.dfy`, `AddressLists.dfy` | what the address formatter writes comes back through the parser |
| `FoldingSpace.dfy`, `AddressGroups.dfy` | comments and folds, groups and phrases from any writer |
| `AddressForms.dfy`, `TransferForms.dfy`, `MinimalForms.dfy` | the alphabets, limits and forms on the wire, and that nothing is quoted, encoded or broken without need |
| `EscapeReading.dfy`, `ForeignHeaders.dfy`, `ForeignMultipart.dfy`, `EntityReading.dfy`, `MediaTypeReading.dfy` | the MIME reader on what other writers send |
| `TextParts.dfy` | the choice of a text encoding, `multipart/alternative`, and what bodies are announced as |
| `AddressParser.dfy` | the parser object with its cursor, method by method |

Code that works step by step is written as methods with loops, or as a class with
the source's fields, and is proved equal to a function; the theorems are about
the functions. Text is a sequence of code points in which an unpaired surrogate
stands for itself; where the code counts UTF-16 units the model does too.
Unicode tables, the charsets besides UTF-8 and US-ASCII, the server, the network
and I/O failures are parameters: theorems hold for all of them, given only the
few facts named in `Idna.Sane` and, where a lemma says so,
`EncodedWord.NeverLengthens`.

## What the proofs found

Each of these is a lemma, and each exception comes with the exact condition.

- Encoding a label never overflows below 1928 code points, so the guards never
  fire for a DNS label; at 1928 they can (`Punycode.LongerTextOverflows`), and
  a longer text can be accepted by the encoder and refused by the decoder
  (`Punycode.AcceptedButLost`), exactly when a distance between two of its code
  points does not fit 31 bits (`Punycode.DecodesIfWithinReach`).
- The internationalized path refuses ASCII labels of 60 to 63 octets, because it
  reserves room for a prefix they do not get (`Idna.LongAsciiLabelRefused`).
- A dial that completes after `close` gives its slot back twice. The drift of
  `live` is exactly the number of such dials (`Pool.LateDialsCounted`); three
  steps suffice to count minus one (`Pool.LateDialDrifts`).
- A swallowed RCPT failure can return a session to the pool with a reply still
  owed. It is owed exactly when a given-up write was delivered or a failed read
  took nothing, and no caller can tell (`Transaction.BalanceIsExact`,
  `Transaction.SwallowedFailure`).
- The pipelined envelope uses the empty address as its marker for "none rejected
  yet", so it differs from the sequential one when a recipient's address is
  empty (`Transaction.EmptyAddressBreaksRefinement`).
- A strict CRLF receiver misreads a payload exactly when a dot follows a bare LF
  (`DataPhase.StrictReceiverRecovers`).
- The consistency check of reply codes accepts zeros in front of one repeated
  code, and nothing else (`Replies.PrintedReplyReads`,
  `Replies.ZeroCodeIsForgotten`).
- The IPv6 check accepts stray colons and too many groups beside a double colon;
  without a dot those are the only texts it wrongly accepts, and it refuses none
  (`AddressLiterals.HexFormIsExact`, `AddressLiterals.ThreeColons`). An embedded
  IPv4 address counts as one group instead of two, so the full form is refused
  and one with seven groups accepted (`AddressLiterals.EmbeddedFull`,
  `AddressLiterals.EmbeddedCompressed`).
- A MIME part without header fields loses its content unless it is empty
  (`EntityReading.HeaderlessPartIsLost`).
- A body with attachments is always announced as 7bit, which is true exactly
  when everything in it is ASCII (`TextParts.MixedIsHonestIff`,
  `TextParts.WideTextIsMislabelled`).
- The line limit of 998 is counted in UTF-16 units, so a line sent as it is can
  have up to three times as many octets (`TextParts.LinesOfUnencoded`,
  `TextParts.LongLineOfAccents`).
- A 7bit or 8bit body line that starts with the delimiter, also one that is
  longer than the delimiter, cuts the body short (`Multipart.SplitIsExact`).
- A local part with a character outside ASCII is never quoted, so one that is no
  dot-atom does not survive (`AddressRoundTrip.MailboxRoundTrip`,
  `AddressRoundTrip.UnquotedLocalIsLost`).
- An ASCII display name is lost exactly when it holds a tab and is not quoted,
  or holds an encoded word, which no quoting protects
  (`AddressLists.AsciiNameArrives`, `AddressLists.WordNameIsLost`).

## Model

| member | source | states |
|---|---|---|
| `Punycode.RoundTrip` | src/internal/idna.ts:297-448 | every text of at most 1927 Unicode scalar values (a DNS label allows 63) encodes without overflow, and decoding the result gives exactly that text (sections 6.2 and 6.3 of RFC 3492) |
| `Punycode.DecodesIfWithinReach` | src/internal/idna.ts:297-448 | whatever text the encoder accepts, of any length: the decoder gives back exactly that text when every distance from one distinct code point to the first place of the next fits 31 bits, and refuses it otherwise |
| `Punycode.AcceptedButLost` | src/internal/idna.ts:405-433 | such a text exists: 1930 code points that the encoder accepts and the decoder refuses |
| `Punycode.LongerTextOverflows` | src/internal/idna.ts:336-338 | 1927 is the best bound: a text of 1928 scalar values exists that the encoder refuses |
| `Punycode.VliRoundTrip` | src/internal/idna.ts:353-428 | the digits written for a delta are read back as that delta, reading stops right behind them, and neither decoder guard fires |
| `Punycode.VliOverflows` | src/internal/idna.ts:405-428 | digits whose sum with the position does not fit 31 bits make the decoder fail |
| `Punycode.InsertionInStep` | src/internal/idna.ts:350-371 | one insertion keeps encoder and decoder in step: equal `n` and `bias`, and `delta` is the distance from the decoder position |
| `Punycode.InsertionSim` | src/internal/idna.ts:352-445 | when the encoder inserts a code point, the decoder reads its digits and splices the same code point at the same place, or fails exactly when the distance does not fit |
| `Punycode.PassesSim` | src/internal/idna.ts:326-447 | from any point where the two are in step, the rest of the encoding decodes to the whole text exactly when the remaining distances fit, and fails otherwise |
| `Punycode.EncodedShape` | src/internal/idna.ts:313-372 | what the encoder accepts becomes the ASCII of the text, a hyphen if there is any, then lower-case letters and digits only |
| `Punycode.EncodedIsNoShorter` | src/internal/idna.ts:313-372 | every code point costs at least one output character, for whatever the encoder accepts |
| `Punycode.DecodedAscii` | src/internal/idna.ts:393-447 | the decoder inserts nothing below U+0080: all ASCII of its result was literally in its input |
| `Punycode.AdaptBound` | src/internal/idna.ts:276-285 | the adapted bias never exceeds 213 for 31-bit deltas |
| `Punycode.GuardIsOverflow` | src/internal/idna.ts:336-426 | each guard written with a division holds exactly when the 31-bit sum it protects would overflow |
| `Punycode.ComputeAdapt` | src/internal/idna.ts:276-285 | the `adapt` loop computes the bias function |
| `Punycode.EncodePunycode` | src/internal/idna.ts:297-373 | the encoder as written, with its nested loops, computes the encoding function on every input |
| `Punycode.EncodePass` | src/internal/idna.ts:342-366 | the inner loop, with bias and delta updated in place, is one pass of the function |
| `Punycode.DecodePunycode` | src/internal/idna.ts:385-448 | the decoder as written, with the splice, computes the decoding function on every input |
| `Punycode.ReadInteger` | src/internal/idna.ts:405-428 | the digit loop reads one variable-length integer, or fails exactly where the function does |
| `PunycodeSamples.DigitLaw` | src/internal/idna.ts:256-273 | the digit of value d is character d of `abcdefghijklmnopqrstuvwxyz0123456789`, a capital reads as its small letter, and no other character is a digit (section 5 of RFC 3492) |
| `PunycodeSamples.Buecher` | src/internal/idna.ts:297-448 | one label in both directions: `bücher` is `bcher-kva` |
| `PunycodeSamples.Nandun` | src/internal/idna.ts:297-448 | one with a repeated code point and two passes, in both directions: `ñandúñ` is `and-6mad7c` |
| `PunycodeSamples.Speed` | src/internal/idna.ts:297-448 | sample (R) of section 7.1 of RFC 3492, seven insertions in seven passes, in both directions: `そのスピードで` is `d9juau41awczczp` |
| `Idna.MapDomainLoop` | src/internal/idna.ts:137-159 | the mapping loop drops ignorable code points, maps separators to dots and folds the rest |
| `Idna.ToAsciiDomainLoop` | src/internal/idna.ts:117-129 | the label loop converts every label or fails at the first bad one |
| `Idna.ConvertLabelIsIdempotent` | src/internal/idna.ts:181-226 | a label that is accepted becomes one that is accepted unchanged, through the ASCII branch or the A-label branch |
| `Idna.ALabelIsStable` | src/internal/idna.ts:212-226 | an A-label made from an accepted U-label decodes to it, and is validated to itself |
| `Idna.ConvertedShape` | src/internal/idna.ts:181-226 | an accepted label is itself when ASCII, and otherwise `xn--` plus the Punycode of a non-ASCII text that passes every label rule, within 63 octets |
| `Idna.ConvertedIsSettled` | src/internal/idna.ts:181-226 | the result is ASCII without capitals and without dots |
| `Idna.ToAsciiIsIdempotent` | src/internal/idna.ts:117-159 | a converted domain is ASCII without capitals and converts to itself, mapping included |
| `Idna.LongAsciiLabelRefused` | src/internal/idna.ts:204-207 | an ASCII label is refused exactly when it is longer than 59 octets, although 63 are allowed |
| `Idna.SaneTables` | src/internal/idna.ts:161-178 | Unicode tables with the assumed facts exist |
| `DomainSamples.DomainSample` | src/internal/idna.ts:117-159 | a whole domain as typed, with a capital beyond ASCII, a soft hyphen and wide full stops, becomes `xn--bcher-kva.x.de` |
| `DomainSamples.AsciiLabelRules` | src/internal/idna.ts:181-207 | exactly which ASCII labels are accepted, and unchanged: letters, digits and hyphens, no hyphen at an end or as third and fourth character, at most 59 octets |
| `Domain.NormalizedIsNormal` | src/internal/domain.ts:47-86 | a normalized name has lower-case letter-digit-hyphen labels of 1 to 63 octets and at most 255 octets in all |
| `Domain.NormalIsFixed` | src/internal/domain.ts:47-86 | a name normalizes to itself if and only if it has that form |
| `Domain.AsciiNames` | src/internal/domain.ts:62-85 | an ASCII name is accepted if and only if its lower-case form has that form, and becomes it |
| `Domain.ConvertedNames` | src/internal/domain.ts:52-61 | the result for an internationalized name is stable under the conversion as well |
| `Domain.LiteralChars` | src/internal/domain.ts:101-193 | an accepted address literal is its content in brackets, and the content holds no bracket, backslash, space or control character |
| `AddressLiterals.IPv4Law` | src/internal/domain.ts:131-148 | an IPv4 address is four decimal numbers from 0 to 255 with dots between them, and nothing else is accepted |
| `AddressLiterals.HexFormIsExact` | src/internal/domain.ts:151-188 | an IPv6 address without a dot is of one of the two forms of section 4.1.3 of RFC 5321 if and only if the check accepts it and it has neither a stray colon nor more groups than stand beside a double colon |
| `AddressLiterals.ThreeColons` | src/internal/domain.ts:151-188 | the check does accept a stray colon: three colons and nothing else |
| `AddressLiterals.LeadingColon` | src/internal/domain.ts:151-188 | another family: any seven groups behind one colon |
| `AddressLiterals.EmbeddedForm` | src/internal/domain.ts:157-165 | every accepted address with a dot ends in an IPv4 address behind a colon |
| `AddressLiterals.EmbeddedCountsOnce` | src/internal/domain.ts:157-165 | an embedded IPv4 address is counted as one group, although it stands for two |
| `AddressLiterals.EmbeddedFull` | src/internal/domain.ts:157-174 | so without a double colon it is accepted if and only if seven groups stand in front of it, where the standard has six |
| `AddressLiterals.EmbeddedCompressed` | src/internal/domain.ts:157-174 | and with one, if and only if there are at most six groups beside it, where the standard has four |
| `AddressForms.TaggedLiteral` | src/internal/domain.ts:101-112 | an IPv6 literal is the tag, in letters of either case, and an accepted address |
| `AddressForms.NamesOfLabels` | src/internal/domain.ts:62-85 | labels joined by dots are a normal name if and only if each is a label of at most 63 octets and all take at most 255 (section 2.3.4 of RFC 1035) |
| `Pool.StepKeeps` | src/internal/smtp/pool.ts:68-235 | every atomic step, between two awaits, of every task keeps the whole invariant |
| `Pool.RunKeeps` | src/internal/smtp/pool.ts:68-235 | so does every interleaving of acquires, dials, health checks, releases, failures, aborts and closing |
| `Pool.CapacityIsExact` | src/internal/smtp/pool.ts:88-110 | in every reachable state `live` is at most `size`; while the pool is open it is owned sessions plus dials in flight, and after `close` that figure minus the dials that succeeded too late |
| `Pool.LateDialsCounted` | src/internal/smtp/pool.ts:94-107 | that drift is exactly the number of dials that completed successfully after `close`: each gives its slot back twice |
| `Pool.LateDialDrifts` | src/internal/smtp/pool.ts:88-110 | the drift is real: a dial, a close, and the success of the dial leave an empty pool that counts minus one |
| `Pool.OwnershipIsExclusive` | src/internal/smtp/pool.ts:74-132 | no session is ever with two tasks, nor with a task and in the idle list |
| `Pool.NoLostWakeUp` | src/internal/smtp/pool.ts:110-229 | in an open pool a waiter exists only while nothing is idle and the limit is reached |
| `Pool.CloseLeavesNothing` | src/internal/smtp/pool.ts:135-155 | after `close` completed there is no waiter; once all tasks are done nothing is owned and every session ever dialled is closed |
| `Pool.ClosedForGood` | src/internal/smtp/pool.ts:88-155 | a closed pool stays closed, and its queue never grows again |
| `Pool.SecondReleaseShares` | src/internal/smtp/pool.ts:121-132 | the ownership claim needs one release per session: releasing an idle session again lets two callers hold it |
| `Pool.ForeignKeeps` | src/internal/smtp/pool.ts:121-125 | releasing a session the pool never dialled closes it and changes no book |
| `Pool.WokenKeeps` | src/internal/smtp/pool.ts:224-229 | waking empties the queue and strands nobody |
| `Pool.LateDialKeeps` | src/internal/smtp/pool.ts:94-107 | the double decrement after `close` keeps the drift equation |
| `Pool.CloseFromKeeps` | src/internal/smtp/pool.ts:141-154 | the closing loop, suspended at each QUIT, keeps the invariant |
| `Pool.FailedSessionIsGone` | src/internal/smtp/pool.ts:164-191 | after a failed transaction, and after any in a closed pool, whatever happens later: the session is shut, owned no more, and neither idle nor with any task |
| `Pool.SuccessfulSessionIsKept` | src/internal/smtp/pool.ts:121-168 | after a successful one an open pool owns the session, unshut, at the end of the idle list, and the next caller gets it |
| `Pool.GiveBackMeans` | src/internal/smtp/pool.ts:164-191 | both outcomes of giving a session back, field by field |
| `Pool.ShutForGood` | src/internal/smtp/pool.ts:121-201 | no run ever hands out, keeps idle or owns a session that is shut |
| `Pool.HeldIsOwned` | src/internal/smtp/pool.ts:74-110 | in every reachable state, whoever holds or checks a session holds an open one of the pool that is not idle |
| `Pool.HealthCheckDecides` | src/internal/smtp/pool.ts:76-85 | a health check that passes hands out that very session unclosed; one that fails ends it for good, in every run |
| `Pool.DialDecides` | src/internal/smtp/pool.ts:93-107 | a dial that succeeds in time gives the caller its session, one that comes too late closes it |
| `Pool.SmtpPool.constructor` | src/internal/smtp/pool.ts:49-53 | an open pool with nothing in it |
| `Pool.SmtpPool.Wake` | src/internal/smtp/pool.ts:224-229 | resolves every waiter and nothing else |
| `Pool.SmtpPool.Destroy` | src/internal/smtp/pool.ts:193-201 | the session is closed and out of the books, exactly an owned one frees one slot and makes every waiter ready; a session in no hand keeps the invariant |
| `Pool.SmtpPool.Release` | src/internal/smtp/pool.ts:121-132 | exactly an owned session of an open pool goes to the end of the idle list, any other one is closed; waiters become ready, the invariant is kept |
| `Pool.SmtpPool.Acquire` | src/internal/smtp/pool.ts:69-111 | a session comes from the end of the idle list; a dial takes one slot below the limit; only at the limit with nothing idle the task queues; it ends exactly when aborted, or closed with nothing idle; the invariant is kept |
| `Pool.SmtpPool.NoopFailure` | src/internal/smtp/pool.ts:79-85 | a failed health check destroys the session and goes round again |
| `Pool.SmtpPool.GiveSlotBack` | src/internal/smtp/pool.ts:103-107 | exactly one slot is free again, the queue is empty, every waiter is ready, the invariant is kept |
| `Pool.SmtpPool.DropLateSession` | src/internal/smtp/pool.ts:95-107 | the late session is closed, two slots are given back, and the queue is empty |
| `Pool.SmtpPool.DialSettled` | src/internal/smtp/pool.ts:93-107 | what follows a dial, success or failure |
| `Pool.SmtpPool.GiveBackSession` | src/internal/smtp/pool.ts:164-191 | after success in an open pool the session is owned, not shut and at the end of the idle list; after a failure, or in a closed pool, it is shut, owned no more and not in the idle list, which is unchanged; the new state is the GiveBack step |
| `Pool.SmtpPool.AbortWaiter` | src/internal/smtp/pool.ts:211-217 | an aborted waiter leaves the queue |
| `Pool.SmtpPool.Close` | src/internal/smtp/pool.ts:135-149 | takes the idle list and starts telling each session QUIT |
| `Pool.SmtpPool.QuitSettled` | src/internal/smtp/pool.ts:144-149 | a settled QUIT closes the session, well or badly |
| `Pool.SmtpPool.CloseNextSession` | src/internal/smtp/pool.ts:141-154 | goes on with the next session, or rejects every waiter |
| `DataPhase.DotStuff` | src/internal/smtp/transaction.ts:300-330 | count-then-fill over a buffer of the exact size gives the stuffed text |
| `DataPhase.DotStuffChunk` | src/internal/smtp/transaction.ts:343-361 | stuffing one chunk with the carried line-start flag gives its part of the stuffed stream, and the flag for the next chunk |
| `DataPhase.SendData` | src/internal/smtp/session.ts:680-723 | however the payload is cut into chunks, what is written is stuff(payload), a CRLF exactly when it is non-empty and does not end in CRLF, then dot CRLF; the errors for the two replies |
| `DataPhase.LenientReceiverRecovers` | src/internal/smtp/session.ts:693-716 | a receiver that ends lines at LF stops exactly at the final dot, for every payload and whatever follows, and recovers the payload completed to whole lines (section 4.5.2 of RFC 5321) |
| `DataPhase.StrictReceiverRecovers` | src/internal/smtp/transaction.ts:343-361 | a receiver that ends lines at CRLF stops at the same place for every payload, and recovers it if and only if no dot follows an LF without a CR before it |
| `DataPhase.StuffedLineSurvives` | src/internal/smtp/transaction.ts:300-330 | a stuffed line is never taken for the final dot, and loses exactly the dot that was added |
| `DataPhase.StuffFixed` | src/internal/smtp/transaction.ts:314-316 | stuffing changes nothing if and only if no dot starts a line |
| `TransferForms.EndedOnlyIfNeeded` | src/internal/smtp/session.ts:693-716 | a CRLF is added in front of the final dot only to a payload that is not empty and does not end in one |
| `TransferForms.DataSample` | src/internal/smtp/session.ts:680-723 | a message of two lines, one with a dot in front and no end, as it goes over the wire |
| `Bdat.Rechunker.Next` | src/internal/smtp/session.ts:839-848 | one resumption of the generator yields the next piece in order, or the end |
| `Bdat.SendBdatChunked` | src/internal/smtp/session.ts:735-770 | the loop with its look-ahead sends a prefix of the plan, all of it when every reply is a success, and reports the first reply that is none |
| `Bdat.PlanCarriesStream` | src/internal/smtp/session.ts:735-848 | for all chunks and every positive size: payloads concatenate to the stream, each declared size is its payload length and at most the limit, only the final command carries LAST, and an empty stream is the one command `BDAT 0 LAST` |
| `TransferForms.PlanIsShort` | src/internal/smtp/session.ts:735-848 | a stream takes the fewest commands its chunks allow: the quotient of each chunk and the size, rounded up, and at least one |
| `TransferForms.CutIsShort` | src/internal/smtp/session.ts:839-848 | so for one chunk, from any offset |
| `Transaction.BalanceIsExact` | src/internal/smtp/session.ts:505-770 | for every transaction that returns normally, whatever was unread before: the replies left unread grow by exactly the RCPT writes that failed and were delivered all the same, the RCPT reads that failed without taking their reply, and the recipients behind the read where the pipelined loop stopped; sequential, pipelined, DATA and both BDAT forms |
| `Transaction.AlignedIffNothingOwed` | src/internal/smtp/session.ts:505-770 | so an aligned session stays aligned if and only if every recipient has an outcome and no outcome owes a reply |
| `Transaction.AllAnsweredStaysAligned` | src/internal/smtp/session.ts:653-678 | the half a caller can see: when every outcome is an answer of the server, the backlog is unchanged |
| `Transaction.AcceptedIsDelivered` | src/internal/smtp/session.ts:525-770 | for every transaction that returns normally, whatever failed: the last commands the server got are those of the chosen transfer, what it takes out of them is exactly the payload (for DATA completed to whole lines), and on an aligned session the success is its answer to the last one |
| `Transaction.TransferCarries` | src/internal/smtp/session.ts:680-770 | the commands of each kind of transfer carry the payload whole |
| `Transaction.NothingForNobody` | src/internal/smtp/session.ts:513-524 | whatever fails: a normal return has an accepted recipient, and when the envelope accepted none the outcomes are thrown with neither DATA, message nor BDAT among what was sent |
| `Transaction.RunMeets` | src/internal/smtp/session.ts:505-553 | on an aligned session without I/O failures the result of a whole transaction, stated from the answers of the server alone |
| `Transaction.TransmitMeets` | src/internal/smtp/session.ts:525-770 | the same for the transfer by itself: success, or the first answer that stops it |
| `Transaction.BdatIsWanted` | src/internal/smtp/session.ts:528-549 | BDAT is sent only to a server that advertises CHUNKING, in chunks of the wanted size when asked for, and otherwise only for one buffer over 1 MiB, in one piece |
| `Transaction.ReliableStaysAligned` | src/internal/smtp/session.ts:505-770 | without I/O failures every transaction, also one that throws, leaves no reply unread |
| `Transaction.ReplyIsItsOwn` | src/internal/smtp/session.ts:386-452 | on an aligned session the reply read for a command is the server's answer to that command |
| `Transaction.SwallowedFailure` | src/internal/smtp/session.ts:653-678 | a failed RCPT write or read is swallowed and the transaction succeeds; a reply is still owed exactly when the write was delivered, or the read took nothing, which no caller sees |
| `Transaction.PipelinedRefinesSequential` | src/internal/smtp/session.ts:571-651 | against any server that is a function of the command history, without I/O failure and with no empty address: same outcomes and accepted count, same error, same first rejected recipient, and the pipelined form has drained every reply before it throws (section 3.1 of RFC 2920) |
| `Transaction.EmptyAddressBreaksRefinement` | src/internal/smtp/session.ts:617-648 | an empty address defeats the marker for "none rejected yet": for every list with one, some server makes the sequential form throw and the pipelined form succeed under `requireAllRecipients` |
| `Transaction.SequentialMeets` | src/internal/smtp/session.ts:571-600 | what the sequential form does against a server, recipient by recipient |
| `Transaction.PipelinedMeets` | src/internal/smtp/session.ts:602-651 | what the pipelined form does against a server |
| `Transaction.SmtpSession.WriteCommands` | src/internal/smtp/session.ts:772-779 | one write carries the commands; one more reply is owed for each when it works, and when it fails but is delivered |
| `Transaction.SmtpSession.ReadReply` | src/internal/smtp/session.ts:402-452 | one reply is taken in order and becomes the last response, or none is reported |
| `Transaction.SmtpSession.BestEffortReset` | src/internal/smtp/session.ts:486-493 | a failure is ignored; without one the backlog is unchanged |
| `Transaction.SmtpSession.SendRcptTo` | src/internal/smtp/session.ts:653-678 | a failure becomes an outcome, and the backlog grows by exactly what the outcome owes |
| `Transaction.SmtpSession.SendEnvelopeSequential` | src/internal/smtp/session.ts:571-600 | the recipient loop computes the sequential function, one outcome per recipient, and the backlog grows by what they owe |
| `Transaction.SmtpSession.SendEnvelopePipelined` | src/internal/smtp/session.ts:602-651 | the reply loop computes the pipelined function, and the backlog grows by what the outcomes owe and the recipients left out |
| `Transaction.SmtpSession.SendDataMessage` | src/internal/smtp/session.ts:680-723 | a success means that DATA and the framed payload went out, no reply is left over, and the last response is the verdict |
| `Transaction.SmtpSession.SendBdat` | src/internal/smtp/session.ts:725-733 | a success means that the command and its payload went out, no reply is left over, and the last response is the verdict |
| `Transaction.SmtpSession.SendBdatPlan` | src/internal/smtp/session.ts:755-769 | the chunks in order up to the first refusal; a success means all of them |
| `Transaction.SmtpSession.SendPayload` | src/internal/smtp/session.ts:525-549 | the branch between chunked BDAT, single BDAT and DATA computes the chosen transfer |
| `Transaction.SmtpSession.RunTransaction` | src/internal/smtp/session.ts:505-553 | envelope, all-rejected case and choice of transfer compute the transaction function; a normal return has an accepted outcome, and outcomes without one are thrown with neither DATA nor BDAT sent; the backlog grows by exactly what the outcomes owe, and the last response is the verdict |
| `Replies.LineConnection.HandleData` | src/internal/smtp/connection.ts:255-258 | bytes are appended, and a waiting reader gets the first complete line |
| `Replies.LineConnection.ReadLine` | src/internal/smtp/connection.ts:112-161 | rejected with the stored failure, else with an abort, else a buffered line at once, else a pending read |
| `Replies.LineConnection.Drain` | src/internal/smtp/connection.ts:270-283 | delivers exactly the bytes up to the first LF to the pending read and keeps the rest |
| `Replies.LineConnection.Fail` | src/internal/smtp/connection.ts:285-293 | rejects the pending read and stores the error, with which `ReadLine` rejects every later read; after `close` nothing happens; no byte is lost |
| `Replies.LineConnection.Close` | src/internal/smtp/connection.ts:234-241 | from then on a failure is not stored |
| `Replies.LineConnection.GiveUp` | src/internal/smtp/connection.ts:121-156 | a timeout or abort settles the read and loses no byte |
| `Replies.DeliveryIsFraming` | src/internal/smtp/connection.ts:255-283 | for every way the network splits the stream, the delivered lines are its first lines in order and with the buffer make up all bytes received |
| `Replies.LinesAreForced` | src/internal/smtp/connection.ts:270-283 | there is only one way to cut a stream into such lines |
| `Replies.ReadReply` | src/internal/smtp/session.ts:402-452 | the reading loop over a connection, with data, timeouts, aborts and socket errors happening while it waits, computes the reading function; code and texts survive every wait |
| `Replies.WaitForLine` | src/internal/smtp/connection.ts:112-161 | one read and the events until it settles |
| `Replies.SplitDoesNotMatter` | src/internal/smtp/session.ts:402-452 | however the network splits the stream over data events, the reply is read as if all bytes had been there at once, and later data is not touched |
| `Replies.SettledStays` | src/internal/smtp/session.ts:402-452 | a reply that is settled stays so whatever arrives later |
| `Replies.PrintedReplyReads` | src/internal/smtp/session.ts:402-452 | printed lines with any codes: they are one complete reply if and only if the codes are some zeros followed by one code over and over; otherwise the reply is refused, and what stays buffered is what follows the first line that disagrees (section 4.2.1 of RFC 5321) |
| `Replies.OneCodeReads` | src/internal/smtp/session.ts:402-452 | a reply printed with one code, 000 included, is read back as that code and those texts, and nothing behind its last line is consumed |
| `Replies.ZeroCodeIsForgotten` | src/internal/smtp/session.ts:428-436 | the code 000 is taken for "no code yet": another code may follow it, but it may not follow another code |
| `Replies.AnyLine` | src/internal/smtp/session.ts:402-446 | one step, for a line of any content: refused when shorter than four characters, without three digits or with another code than before; the last one if a space stands behind the code; otherwise reading goes on |
| `Replies.OpenLineWaits` | src/internal/smtp/connection.ts:270-283 | a line that is still open decides nothing |
| `Replies.ReplySample` | src/internal/smtp/session.ts:402-452 | a reply of two lines, one ended by a bare LF, as it comes over the wire |
| `QuotedPrintable.EncodeQuotedPrintable` | src/internal/mime.ts:110-140 | the encoding loop computes the encoding function |
| `QuotedPrintable.DecodeQuotedPrintable` | src/mime/parse.ts:655-687 | the lenient decoding loop computes the decoding function on every input |
| `QuotedPrintable.RoundTrip` | src/internal/mime.ts:110-140 | for every octet string b: decoding the encoding gives b when b ends in CRLF, and b plus CRLF otherwise (section 6.7 of RFC 2045) |
| `QuotedPrintable.RoundTripWithoutCrlf` | src/mime/parse.ts:655-687 | without its last CRLF, as a multipart reader passes it on, the encoding decodes to b without its last CRLF, or to b when it has none |
| `QuotedPrintable.LinesAreGood` | src/internal/mime.ts:121-139 | every encoded line has at most 76 characters, holds printable ASCII, spaces and tabs only and ends in neither; `=_` never occurs; the output ends in CRLF |
| `MinimalForms.UnchangedIffStanding` | src/internal/mime.ts:110-140 | the encoding leaves a text as it is, up to a last CRLF, if and only if all its lines can stand: printable ASCII and blanks without equals sign, at most 75 long, ending in no blank |
| `MinimalForms.SoftBreaksAreNeeded` | src/internal/mime.ts:121-139 | a line is broken softly only where the next character or escape would have taken it over 75, which with the equals sign of the break is 76 |
| `EscapeReading.HexLaw` | src/mime/parse.ts:655-697 | digits are written as capitals and read in either case, and nothing else is a digit |
| `EscapeReading.DecodesPieces` | src/mime/parse.ts:655-687 | any writer: every octet, digits of either case, both soft breaks and an equals sign that starts nothing are decoded as what they stand for |
| `EscapeReading.PiecesOf` | src/mime/parse.ts:655-687 | and every text at all is written from such pieces |
| `Base64.DecodeInvertsEncode` | src/internal/encoded-word.ts:132-144 | strict decoding yields b if and only if the text is the encoding of b, so every non-canonical text is refused (section 4 of RFC 4648) |
| `Base64.CanonicalDecodes` | src/internal/encoded-word.ts:132-144 | a text is decoded if and only if it is made of groups of four symbols, the last one padded behind zero bits at most |
| `Base64.EncodeBase64Lines` | src/internal/mime.ts:64-74 | the loop cuts the encoding into lines of 76 |
| `Base64.LinesRoundTrip` | src/mime/parse.ts:647-652 | wrapped Base64, with or without its last CRLF, reads back as the octets |
| `Base64.WrappedShape` | src/internal/mime.ts:64-74 | wrapped text holds symbols, padding and line ends only, and ends in CRLF unless empty |
| `TransferForms.AlphabetLaw` | src/internal/mime.ts:64-74 | symbol n is character n of the alphabet in table 1 of RFC 4648, both ways |
| `TransferForms.GroupIsNumber` | src/internal/mime.ts:64-74 | the symbols of a group spell, in base 64, the number its octets spell in base 256, with padding for the octets that are missing |
| `TransferForms.WrappedAt` | src/internal/mime.ts:64-74 | symbol i of wrapped text stands behind i / 76 line ends |
| `EntityReading.JunkInBase64` | src/mime/parse.ts:647-652 | anything that is no symbol may stand anywhere in Base64 text |
| `Utf8.TextRoundTrip` | src/internal/encoded-word.ts:173-178 | what the platform makes of encoded text: one leading U+FEFF is dropped and unpaired surrogates become U+FFFD |
| `Utf8.DecodeIsNoLonger` | src/internal/encoded-word.ts:173-178 | decoding gives no more characters than there are octets |
| `Utf8.ScalarsOfWellFormed` | src/internal/encoded-word.ts:173-178 | nothing is replaced if and only if there is no unpaired surrogate |
| `TransferForms.Utf8Sample` | src/internal/encoded-word.ts:173-178 | one character of each length and an unpaired surrogate, as octets (section 3 of RFC 3629) |
| `Headers.FoldHeader` | src/internal/headers.ts:98-122 | the folding loop computes the lines of a field |
| `Headers.SerializeHeaders` | src/internal/headers.ts:89-95 | the block is the folded fields in order |
| `Headers.ParseHeaderBlock` | src/mime/parse.ts:205-239 | the reading loop computes the parsing function on every block |
| `Headers.HeadersRoundTrip` | src/internal/headers.ts:89-122 | for every list of valid fields, also beyond ASCII, reading the octets of the serialized block gives the same names in order, and in every value the UTF-8 of the same words: equal up to trimming and collapsing runs of space and tab |
| `Headers.ReceivedKeepsWords` | src/mime/parse.ts:214-236 | the value received has exactly the words sent |
| `Headers.FoldOnlyBreaks` | src/internal/headers.ts:104-121 | folding breaks lines before spaces and changes nothing else; every continuation line starts with a space |
| `Headers.FoldedLineLimit` | src/internal/headers.ts:109-118 | a line over 78 UTF-16 units holds at most one word after the field name, and no continuation line is blank (section 2.2.3 of RFC 5322) |
| `Headers.BrokenOnlyWhereItMust` | src/internal/headers.ts:98-122 | a field is broken only where it must be: one that fits within 78 stays whole, the first word stays behind the name, and a line ends only where the next word would have taken it over 78 |
| `ForeignHeaders.SplitLined` | src/mime/parse.ts:205-210 | lines are told apart at CRLF, LF and CR alike |
| `ForeignHeaders.ReadsForeignBlock` | src/mime/parse.ts:205-239 | any writer: the fields of a block in order, whatever continuations, blanks, stray lines and line ends it has |
| `Multipart.SplitMultipart` | src/mime/parse.ts:705-753 | the splitting loop computes the splitting function on every body |
| `Multipart.SkipTo` | src/mime/parse.ts:711-722 | occurrences of the delimiter inside a line are skipped, and none at a line start is missed |
| `Multipart.SplitIsExact` | src/mime/parse.ts:705-753 | for any parts: splitting the framed body gives every part without its last CRLF if and only if no line of any part starts with the delimiter (section 5.1.1 of RFC 2046) |
| `Multipart.DirtyPart` | src/mime/parse.ts:719-732 | a part with such a line is cut short at the first one |
| `Multipart.CleanWithoutPair` | src/internal/mime.ts:235-237 | text without the pair `=_` holds no delimiter made from a generated boundary |
| `Multipart.BoundaryFacts` | src/internal/mime.ts:235-237 | a generated boundary gives a delimiter on one line, with `=_` in it |
| `TransferForms.BoundaryLaw` | src/internal/mime.ts:235-237 | a generated boundary is its fixed prefix and 32 small hexadecimal digits |
| `ForeignMultipart.SplitsForeignBody` | src/mime/parse.ts:705-753 | any writer: the contents of a body come back in order, whatever line ends, blanks behind delimiters, preamble and epilogue it has, and with or without a closing delimiter, when no line of a content or the preamble starts with the delimiter |
| `Mixed.WrapAttachments` | src/internal/mime.ts:148-181 | the writing loop emits exactly the framed body part and attachment parts, announced as `multipart/mixed` with the boundary |
| `Mixed.FindHeaderEndLoop` | src/mime/parse.ts:173-193 | the scanning loop finds the first line break that another one follows |
| `Mixed.PartIsRead` | src/mime/parse.ts:173-239 | reading a part gives its fields, trimmed, and its content without the last CRLF, the empty content included |
| `Mixed.MixedIsExact` | src/internal/mime.ts:148-181 | for any body part and attachments, the reader finds exactly the parts written, in order, if and only if no line of the body part starts with the delimiter |
| `Mixed.QuotedPrintableIsExact` | src/internal/mime.ts:110-140 | a quoted-printable body part always meets that condition |
| `Mixed.AttachmentRoundTrip` | src/internal/mime.ts:162-174 | every attachment comes back: its octets, also when empty, its content type, `inline` exactly when it is, its content identifier, and its filename exactly when the parameter encoding can carry it |
| `Mixed.BodyRoundTrip` | src/internal/mime.ts:155-160 | the body part comes back as its complete lines, but for the CRLF that belongs to the delimiter, with its own content type and transfer encoding |
| `Mixed.MixedRoundTrip` | src/mime/parse.ts:705-753 | what was written, split and read again: when no line of the body part starts with the delimiter there is one part for the body, with its lines, content type and encoding, and one for each attachment, with its octets, content type, disposition word, content identifier and filename |
| `Mixed.QuotedPrintableArrives` | src/mime/parse.ts:655-687 | a quoted-printable body part is decoded to its source, but for the CRLF that belongs to the delimiter |
| `Mixed.QuotedPrintableMixedArrives` | src/internal/mime.ts:148-181 | with a quoted-printable body every source and every list of attachments arrives, whatever they hold |
| `Mixed.WireWords` | src/internal/mime.ts:155-171 | the field names and words as they stand on the wire |
| `EntityReading.ReadsForeignEntity` | src/mime/parse.ts:173-202 | any writer: an entity is read as the fields of its header block and exactly the octets behind the blank line, for every kind of line end |
| `EntityReading.HeaderlessPartIsLost` | src/mime/parse.ts:173-202 | a part that starts with its blank line, as section 5.1 of RFC 2046 allows, gives its content back if and only if that is empty |
| `EntityReading.HeaderlessParagraph` | src/mime/parse.ts:173-202 | one paragraph without fields is lost whole |
| `EntityReading.FirstFieldCounts` | src/mime/parse.ts:242-250 | the value looked up is that of the first field of the name, in letters of either case, and there is none if and only if no field has it |
| `EntityReading.EncodingNames` | src/mime/parse.ts:635-645 | the two encodings that are undone, in letters of either case with blanks around them; content of any other is left alone |
| `TextParts.NormalizedLines` | src/internal/mime.ts:54-56 | normalizing joins the lines of a text with CRLF, however they were ended |
| `TextParts.NormalizedIsFixed` | src/internal/mime.ts:54-56 | the lines stay the lines, and normalizing twice is normalizing once |
| `TextParts.TextPartArrives` | src/internal/mime.ts:184-201 | a text part is read with its type, and its content decodes to the octets of the text, whichever encoding was selected |
| `TextParts.AlternativeIsExact` | src/internal/mime.ts:77-92 | both parts of `multipart/alternative` are found if and only if no line of a part sent as it is starts with the delimiter |
| `TextParts.AlternativeArrives` | src/internal/mime.ts:77-92 | then the reader gets both texts, in order and each with its type |
| `TextParts.AlternativeIsHonest` | src/internal/mime.ts:87-91 | its encoding is announced truly: 7bit exactly when all octets are ASCII, and 8bit otherwise |
| `TextParts.MixedIsHonestIff` | src/internal/mime.ts:176-180 | a body with attachments is announced as 7bit whatever it holds, which is true if and only if the body part is ASCII and so are the texts in the fields |
| `TextParts.WideTextIsMislabelled` | src/internal/mime.ts:148-181 | one family where it is not: any short text beyond ASCII, with any attachments |
| `TextParts.BoundaryTravels` | src/internal/mime.ts:176-180 | a reader finds the type and the boundary in what a multipart body is announced with |
| `TextParts.BothAreFound` | src/internal/mime.ts:87-180 | for both kinds of body, with nothing but the boundary among the parameters |
| `TextParts.LinesOfUnencoded` | src/internal/mime.ts:102-107 | a line of a text sent as it is has at most 998 octets when ASCII, and only at most 2994 otherwise, because UTF-16 units are counted |
| `TextParts.LongLineOfAccents` | src/internal/mime.ts:102-107 | one such text: five hundred accented letters make a line of a thousand octets, and it is sent as it is |
| `TextParts.WordsOnTheWire` | src/internal/mime.ts:77-180 | the words the two announcements and the parts are written with |
| `Disposition.SplitSegments` | src/mime/parse.ts:253-283 | the splitting loop with its two flags computes the segments |
| `Disposition.FilenameRoundTrip` | src/internal/mime.ts:209-232 | for every non-empty filename: the parameter read from the written value equals it if and only if it is ASCII, or has no unpaired surrogate and does not start with U+FEFF |
| `Disposition.SplitEscaped` | src/mime/parse.ts:258-281 | escaped text inside quotes is one segment, whatever semicolons, quotes and backslashes it holds |
| `Disposition.PercentRoundTrip` | src/internal/mime.ts:221-232 | percent-encoding of any octets decodes to them (section 4 of RFC 2231) |
| `Disposition.FormatIsOneLine` | src/internal/mime.ts:209-218 | the written value is ASCII on one line and ends in no white space |
| `Disposition.NoFilename` | src/mime/parse.ts:286-326 | a bare disposition has no parameters |
| `Disposition.FormatKind` | src/mime/parse.ts:286-326 | the disposition word is what a reader takes for the type, with or without a filename |
| `MinimalForms.FilenameForm` | src/internal/mime.ts:209-218 | a filename is quoted when ASCII and percent-encoded UTF-8 when not, in the parameter of the right name |
| `MinimalForms.AttributeLaw` | src/internal/mime.ts:221-232 | the octets left alone are letters, digits and the written marks of `attr-char` (section 5.4 of RFC 2231) |
| `MinimalForms.PercentOnlyIfNeeded` | src/internal/mime.ts:221-232 | every other octet takes three characters, and those stand for themselves |
| `MinimalForms.NameSample` | src/internal/mime.ts:221-232 | one filename beyond ASCII, as it is written |
| `MediaTypeReading.ParametersAreRead` | src/mime/parse.ts:286-326 | any writer: all parameters of a value are found, bare, quoted or extended, with blanks, and of two with one name the last |
| `MediaTypeReading.MediaIsRead` | src/mime/parse.ts:286-326 | type and subtype are read in small letters whatever parameters follow |
| `MediaTypeReading.ExtendedIsDecoded` | src/mime/parse.ts:377-403 | an extended value is decoded in the charset it names, or UTF-8 if it names none |
| `EncodedWord.DecodeHeaderWords` | src/internal/encoded-word.ts:41-107 | the decoding loop computes the decoding function, and its cursor strictly advances in every round |
| `EncodedWord.EncodeRfc2047` | src/address.ts:279-297 | the chunking loop computes the encoding function |
| `EncodedWord.EncodeRoundTrip` | src/address.ts:279-302 | for every text: decoding the encoded words gives it back if and only if it has no unpaired surrogate and no chunk of it starts with U+FEFF |
| `EncodedWord.UnchangedIffNoWord` | src/internal/encoded-word.ts:41-107 | text is what it decodes to if and only if the decoder, going from mark to mark, meets no encoded word with a valid payload, over a platform that gives no more characters than octets |
| `EncodedWord.DecodeShrinks` | src/internal/encoded-word.ts:41-107 | decoding never lengthens a text, and shortens it where it meets a word |
| `EncodedWord.PayloadDecodes` | src/internal/encoded-word.ts:119-172 | a payload is taken if and only if its characters are canonical Base64, or printable with two hex digits behind every equals sign |
| `EncodedWord.NoOpeningNoWord` | src/internal/encoded-word.ts:46-51 | text without `=?` holds no word |
| `EncodedWord.WordIsMet` | src/internal/encoded-word.ts:46-106 | any one well-formed encoded word on its own is met |
| `EncodedWord.InnerWordIsPassedOver` | src/internal/encoded-word.ts:82-88 | asking that no position starts a word would be too strict: what follows the opening of a malformed word is passed over with it |
| `EncodedWord.NoBomNoChunk` | src/address.ts:283-295 | a text without U+FEFF has no such chunk |
| `EncodedWord.WordsAreShort` | src/address.ts:279-302 | every word has at most 75 characters and carries whole code points, and together the words carry all of the text (section 2 of RFC 2047) |
| `EncodedWord.ScanWord` | src/internal/encoded-word.ts:46-106 | one encoded word, alone or one space behind another, is decoded and consumed whole |
| `EscapeReading.DecodesQPieces` | src/internal/encoded-word.ts:146-172 | a Q payload decodes to what its pieces stand for: underscores are spaces, escapes octets in either case, the rest itself |
| `EscapeReading.QPiecesOf` | src/internal/encoded-word.ts:146-172 | and every payload that is taken is made of such pieces |
| `MinimalForms.WordsAreFull` | src/address.ts:279-297 | a new word starts only where the next code point would have taken the last one over 45 octets |
| `MinimalForms.WordSample` | src/address.ts:300-302 | the marks of the words, as they stand on the wire |
| `AddressReading.ReadLocal` | src/address.ts:612-630 | a written local part that is ASCII or a dot-atom is read back exactly, quoted or not |
| `AddressReading.QuotedRead` | src/address.ts:734-775 | a quoted string of escaped text reads back as the text |
| `AddressReading.ReadDomain` | src/address.ts:633-658 | a normalized name or literal is read whole and normalizes to itself |
| `AddressReading.ReadAddrSpec` | src/address.ts:598-604 | local part, at sign and domain are read back as that shape, for every way to write the local part |
| `AddressRoundTrip.ParsedIsValid` | src/address.ts:999-1050 | whatever parses, alone, in a list or in a group, has a normalized domain, a path-safe local part within the octet limits, and a display name that is non-empty and free of control characters |
| `AddressRoundTrip.MailboxRoundTrip` | src/address.ts:104-110 | a valid mailbox, written bare and parsed again, gives the same local part and domain if and only if the local part is ASCII or a dot-atom |
| `AddressRoundTrip.QuotedFormParses` | src/address.ts:734-775 | quoting would do: every valid mailbox is what its quoted form parses to, so those that do not come back are within reach of the parser |
| `AddressRoundTrip.UnquotedLocalIsLost` | src/address.ts:327-338 | one input: a quoted local part of é, space and b parses, is written without its quotes, and does not come back |
| `AddressRoundTrip.ParsedRoundTrip` | src/address.ts:172-174 | so for whatever the parser made of any input at all |
| `AddressRoundTrip.LocalPartLength` | src/address.ts:612-630 | a local part takes at least as many characters as its value, and exactly as many only when it is a dot-atom |
| `AddressRoundTrip.DomainLength` | src/address.ts:633-658 | a domain written in ASCII takes at least as many characters as its normal form |
| `AddressRoundTrip.PlainNeedsDotAtom` | src/address.ts:327-338 | an unquoted local part that is no dot-atom never comes back |
| `AddressForms.LocalPartQuotedOnlyIfNeeded` | src/address.ts:327-338 | a local part is quoted if and only if it is empty, or ASCII and no dot-atom |
| `AddressForms.NameQuotedOnlyIfNeeded` | src/address.ts:311-313 | an ASCII name is quoted if and only if it is no phrase of plain words with single blanks between them |
| `AddressForms.EscapedOnlyIfNeeded` | src/address.ts:316-318 | escaping adds one backslash for every backslash and quote, and nothing else |
| `AddressForms.MailboxLimits` | src/address.ts:1010-1050 | what a mailbox is refused for, with which error and in which order: control characters and line separators, 64 octets as written, 254 octets in all |
| `AddressForms.AtomLaw` | src/address.ts:345-379 | atoms hold letters, digits, the written symbols of section 3.2.3 of RFC 5322, and everything beyond ASCII |
| `AddressForms.SpecialLaw` | src/address.ts:311-313 | the written characters force quoting in a display name, and no others |
| `AddressForms.Punctuation` | src/address.ts:423-939 | the punctuation of the grammar, as it stands on the wire |
| `AddressLists.NamedRoundTrip` | src/address.ts:234-253 | a mailbox written with its display name comes back the same if and only if the name, as a reader collects it, decodes to itself |
| `AddressLists.ListRoundTrip` | src/address.ts:263-265 | a list of mailboxes written as one header value comes back the same list if and only if every display name does |
| `AddressLists.EncodedNameArrives` | src/address.ts:246-248 | a name beyond ASCII does if and only if it has no unpaired surrogate and no encoded word starts with U+FEFF |
| `AddressLists.AsciiNameArrives` | src/address.ts:249-252 | an ASCII name does if and only if it holds no encoded word the decoder would meet, and no tab unless it is written quoted |
| `AddressLists.TabIsLost` | src/address.ts:311-313 | a name with a tab that is written unquoted never does; the tab becomes a space where nothing is decoded |
| `AddressLists.WordNameIsLost` | src/address.ts:249-252 | one input: a name that spells an encoded word is written unquoted and comes back decoded |
| `AddressLists.ReadDisplay` | src/address.ts:479-518 | a written name and address, before the end, a comma or a semicolon, are read as exactly that entry |
| `AddressLists.ReadPhrase` | src/address.ts:678-709 | a phrase of atoms separated by single blanks is collected with single spaces |
| `AddressLists.FormattedIsPhrase` | src/address.ts:234-302 | a name written without quotes, encoded or plain, is such a phrase |
| `AddressGroups.GroupedRoundTrip` | src/address.ts:440-476 | mailboxes and groups in one list, with any phrases for group names, white space, folds and nested comments: the result is all their mailboxes in order if and only if every display name arrives |
| `AddressGroups.GroupRoundTrip` | src/address.ts:526-565 | one group: its members in order if and only if their names arrive, and nobody if there is nothing between colon and semicolon |
| `AddressGroups.ReadGroup` | src/address.ts:526-565 | the body of a group is read to its semicolon, whatever stands behind it |
| `AddressGroups.ReadMembers` | src/address.ts:544-565 | a formatted list in front of a semicolon is read as its members |
| `AddressGroups.ReadEntryText` | src/address.ts:479-518 | an entry is read to its end, in front of a comma or the end of the list |
| `AddressGroups.PhraseAddress` | src/address.ts:479-518 | a mailbox with any phrase in front of it: its display name is what the phrase says, decoded |
| `AddressGroups.PhraseEntity` | src/address.ts:479-518 | what stands in front of an address or a group is read as the phrase it was written as |
| `AddressGroups.ReadWords` | src/address.ts:678-709 | atoms, dots and quoted strings with any gaps between them are collected as what they say |
| `AddressGroups.PhraseHasNoLocal` | src/address.ts:581-630 | no phrase is taken for a bare address |
| `AddressGroups.LeadingCommas` | src/address.ts:440-452 | commas in front of a list do not matter, but a list of nothing else is refused |
| `AddressGroups.GroupCommas` | src/address.ts:526-542 | commas behind the colon of a group are allowed in front of its semicolon only |
| `AddressGroups.EmptyElement` | src/address.ts:462-474 | a comma with nothing or another comma behind it ends in an error |
| `FoldingSpace.CfwsIsExact` | src/address.ts:881-939 | skipping succeeds exactly on texts that are blanks, folds and nested comments with something else, or nothing, behind them |
| `FoldingSpace.SkipGap` | src/address.ts:881-939 | blanks, folds and nested comments, in any number and order, are skipped to their end |
| `FoldingSpace.SkippedIsGap` | src/address.ts:881-939 | nothing but those is skipped, and all of them are |
| `FoldingSpace.ReadComment` | src/address.ts:825-878 | a comment is read to the parenthesis that closes it, however deep others are nested in it |
| `FoldingSpace.CommentTokens` | src/address.ts:825-878 | and whatever is read as a comment is made of such tokens |
| `AddressParsing.AddressParser.constructor` | src/address.ts:418-421 | the cursor starts at the front of the input |
| `AddressParsing.AddressParser.ConsumeFoldedWhitespace` | src/address.ts:920-939 | CRLF and the blanks behind it, or the line-ending error |
| `AddressParsing.AddressParser.SkipFwsLoop` | src/address.ts:896-912 | skips what the grammar function says and reports it |
| `AddressParsing.AddressParser.ConsumeComment` | src/address.ts:825-878 | nested comments with quoted pairs and folds, to the matching parenthesis |
| `AddressParsing.AddressParser.SkipCfwsLoop` | src/address.ts:881-893 | white space and comments, in any number |
| `AddressParsing.AddressParser.ParseAtom` | src/address.ts:720-732 | the longest run of atom characters, or the error |
| `AddressParsing.AddressParser.ParseQuotedString` | src/address.ts:734-775 | the unescaped content, or the error kind |
| `AddressParsing.AddressParser.ParseDomainLiteral` | src/address.ts:778-823 | the content without brackets, or the error kind |
| `AddressParsing.AddressParser.ParseLocalPart` | src/address.ts:612-630 | segments joined by dots, rewinding when no dot follows |
| `AddressParsing.AddressParser.ParseDomainName` | src/address.ts:638-657 | labels joined by dots, rewinding when no dot follows |
| `AddressParsing.AddressParser.ParseDomain` | src/address.ts:633-658 | a literal or a name |
| `AddressParsing.AddressParser.ParseAddrSpecShape` | src/address.ts:598-604 | local part, at sign, domain |
| `AddressParsing.AddressParser.TryAddrSpec` | src/address.ts:581-596 | absorbs exactly two error kinds and rewinds, propagates the others |
| `AddressParsing.AddressParser.ParseAngleAddr` | src/address.ts:660-668 | the address in angle brackets |
| `AddressParsing.AddressParser.ParsePhrase` | src/address.ts:678-709 | the collected display text |
| `AddressParsing.AddressParser.FinalizeName` | src/address.ts:946-964 | a name that is kept is not empty and holds no control character; the unknown-charset error exactly when there is no decoding |
| `AddressParsing.AddressParser.ParseOneEntity` | src/address.ts:479-518 | one mailbox, or a group colon |
| `AddressParsing.AddressParser.ParseMembers` | src/address.ts:544-564 | the members of a group, in order |
| `AddressParsing.AddressParser.ParseGroupBody` | src/address.ts:526-565 | a group with its commas and members |
| `AddressParsing.AddressParser.Parse` | src/address.ts:423-432 | exactly one mailbox, with the error kind otherwise; the cursor never leaves the input |
| `AddressParsing.AddressParser.ParseAddressList` | src/address.ts:440-476 | all mailboxes of a list, in order, or the first error kind |
| `AddressParsing.JoinedIsDotted` | src/address.ts:613-626 | joining the collected segments with dots is what the grammar function builds |

## Left out

- Punycode.RoundTrip: stated for at most 1927 scalar values, because it is false beyond; `Punycode.DecodesIfWithinReach` is the exact statement for all lengths.
- Transaction.BalanceIsExact: a read that fails has taken its reply whole or not at all; a reply of which some lines stay behind counts as not taken, although a later read sees only those lines.
- Mixed.AttachmentRoundTrip: does not cover Base64 text that is no encoding, which the platform decodes leniently; the writer never emits any.
- AddressParsing.AddressParser.ConsumeComment: does not build the comment text, because every caller drops it.
- Domain.LiteralChars: claims the character set of accepted literals only; `AddressLiterals` says exactly which IPv4 and IPv6 literals are accepted, and where they are not those of section 4.1.3 of RFC 5321.
- Sockets, TLS, timers, abort plumbing, greeting and authentication: a write, a read or a dial is a step that works or fails.
- The NATS consumer, the feedback client, and the webhook handler and verifier: plumbing, field mapping and library cryptography.
- Unicode tables and the charsets besides UTF-8 and US-ASCII: parameters, with the facts of `Idna.Sane` and `EncodedWord.NeverLengthens` as the only assumptions.
- The `Message` builder, dates, Message-ID, random bytes and template rendering: assembly code; a boundary is any text of the generated shape.
- MAIL and RCPT parameters (xtext, ENVID, NOTIFY, DELIVERBY) and enhanced status codes: per-character facts that would add easy members.
- RFC 2231 continuations (`name*0`), the MIME tree walk with its limits, decoding of filenames as encoded words, address salvage, charset guessing and date parsing: best effort, with nothing to prove them against.
- Aliasing of octet buffers (`subarray`, the chunk returned unchanged by the stuffing functions): buffers are values.
