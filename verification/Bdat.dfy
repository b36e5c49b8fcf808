/**
 * Chunked BDAT transfers of `src/internal/smtp/session.ts`: how a stream of
 * chunks becomes a list of BDAT commands (section 2 of RFC 3030).
 */
module Bdat {
  import opened Common
  import opened DataPhase

  /** One BDAT command: its declared size, its LAST flag and the octets that follow it. */
  datatype Chunk = Chunk(size: nat, last: bool, payload: Bytes)

  function Min(a: nat, b: nat): nat { if a <= b then a else b }

  /** One chunk cut from `offset` on into pieces of at most `chunkSize` octets. */
  function Cut(chunk: Bytes, offset: nat, chunkSize: nat): seq<Bytes>
    requires chunkSize > 0
    decreases |chunk| - offset
  {
    if offset >= |chunk| then []
    else [chunk[offset..Min(offset + chunkSize, |chunk|)]] + Cut(chunk, offset + chunkSize, chunkSize)
  }

  /** The pieces `rechunk` still yields: the rest of the current chunk, then the later chunks. */
  function Pieces(current: Bytes, offset: nat, source: seq<Bytes>, chunkSize: nat): seq<Bytes>
    requires chunkSize > 0
    decreases |source|
  {
    Cut(current, offset, chunkSize) + (if source == [] then [] else Pieces(source[0], 0, source[1..], chunkSize))
  }

  lemma PiecesStep(current: Bytes, offset: nat, source: seq<Bytes>, chunkSize: nat)
    requires chunkSize > 0
    ensures offset >= |current| && source == [] ==> Pieces(current, offset, source, chunkSize) == []
    ensures offset >= |current| && source != [] ==>
      Pieces(current, offset, source, chunkSize) == Pieces(source[0], 0, source[1..], chunkSize)
    ensures offset < |current| ==>
      Pieces(current, offset, source, chunkSize)
        == [current[offset..Min(offset + chunkSize, |current|)]] + Pieces(current, offset + chunkSize, source, chunkSize)
  {
  }

  function Rechunk(source: seq<Bytes>, chunkSize: nat): seq<Bytes>
    requires chunkSize > 0
  {
    Pieces([], 0, source, chunkSize)
  }

  /** The generator `rechunk`: its two loop variables, and the chunks not fetched yet. */
  class Rechunker {
    const chunkSize: nat
    var source: seq<Bytes>
    var chunk: Bytes
    var offset: nat

    ghost function Pending(): seq<Bytes>
      requires chunkSize > 0
      reads this
    {
      Pieces(chunk, offset, source, chunkSize)
    }

    constructor (source: seq<Bytes>, chunkSize: nat)
      requires chunkSize > 0
      ensures this.chunkSize == chunkSize && Pending() == Rechunk(source, chunkSize)
    {
      this.chunkSize := chunkSize;
      this.source, this.chunk, this.offset := source, [], 0;
    }

    /** Yields the next piece, or nothing when the stream has ended. */
    method Next() returns (piece: Option<Bytes>)
      requires chunkSize > 0
      modifies this
      ensures old(Pending()) == [] <==> piece.None?
      ensures piece.Some? ==> piece.value == old(Pending())[0] && Pending() == old(Pending())[1..]
    {
      hide Pieces;
      while offset >= |chunk| && source != []
        invariant Pending() == old(Pending())
        decreases |source|
      {
        PiecesStep(chunk, offset, source, chunkSize);
        chunk, offset, source := source[0], 0, source[1..];
      }
      PiecesStep(chunk, offset, source, chunkSize);
      if offset >= |chunk| { return None; }
      piece := Some(chunk[offset..Min(offset + chunkSize, |chunk|)]);
      offset := offset + chunkSize;
    }
  }

  /** The commands `sendBdatChunked` sends when every reply is a success. */
  function Plan(source: seq<Bytes>, chunkSize: nat): (plan: seq<Chunk>)
    requires chunkSize > 0
    ensures |plan| > 0
  {
    var pieces := Rechunk(source, chunkSize);
    if pieces == [] then [Chunk(0, true, [])]
    else seq(|pieces|, i requires 0 <= i < |pieces| => Chunk(|pieces[i]|, i == |pieces| - 1, pieces[i]))
  }

  lemma PlanShape(source: seq<Bytes>, chunkSize: nat)
    requires chunkSize > 0
    ensures var plan, pieces := Plan(source, chunkSize), Rechunk(source, chunkSize);
      && (pieces == [] ==> plan == [Chunk(0, true, [])])
      && (pieces != [] ==> |plan| == |pieces|)
      && (pieces != [] ==>
            forall i | 0 <= i < |pieces| :: plan[i] == Chunk(|pieces[i]|, i == |pieces| - 1, pieces[i]))
  {
  }

  datatype BdatOutcome = BadChunkSize | Refused(code: int) | Done(code: int)

  /** `sendBdatChunked`: `reply(k)` answers the k-th command. */
  method SendBdatChunked(source: seq<Bytes>, chunkSize: int, reply: nat -> int)
    returns (sent: seq<Chunk>, outcome: BdatOutcome)
    ensures chunkSize <= 0 <==> outcome == BadChunkSize
    ensures chunkSize <= 0 ==> sent == []
    ensures chunkSize > 0 ==> var plan := Plan(source, chunkSize);
      && sent <= plan && |sent| > 0
      && (forall k | 0 <= k < |sent| - 1 :: IsSuccess(reply(k)))
      && (outcome.Done? <==> IsSuccess(reply(|sent| - 1)))
      && (outcome.Done? ==> sent == plan && outcome.code == reply(|sent| - 1))
      && (outcome.Refused? ==> outcome.code == reply(|sent| - 1))
  {
    hide Plan, Rechunk, Pieces;
    sent := [];
    if chunkSize <= 0 { return [], BadChunkSize; }
    PlanShape(source, chunkSize);
    var chunks := new Rechunker(source, chunkSize);
    ghost var plan := Plan(source, chunkSize);
    ghost var pieces := Rechunk(source, chunkSize);
    var first := chunks.Next();
    if first.None? {
      sent := [Chunk(0, true, [])];
      return sent, if IsSuccess(reply(0)) then Done(reply(0)) else Refused(reply(0));
    }
    var current := first.value;
    while true
      invariant |sent| < |pieces| && current == pieces[|sent|] && chunks.Pending() == pieces[|sent| + 1..]
      invariant sent == plan[..|sent|]
      invariant forall k | 0 <= k < |sent| :: IsSuccess(reply(k))
      decreases |pieces| - |sent|
    {
      var next := chunks.Next();
      var isLast := next.None?;
      assert isLast <==> |sent| == |pieces| - 1;
      assert plan[..|sent| + 1] == plan[..|sent|] + [plan[|sent|]];
      sent := sent + [Chunk(|current|, isLast, current)];
      var code := reply(|sent| - 1);
      if !IsSuccess(code) { return sent, Refused(code); }
      if isLast { return sent, Done(code); }
      current := next.value;
    }
  }

  function Payloads(plan: seq<Chunk>): Bytes {
    if plan == [] then [] else plan[0].payload + Payloads(plan[1..])
  }

  lemma {:induction false} CutJoins(chunk: Bytes, offset: nat, chunkSize: nat)
    requires chunkSize > 0
    ensures Joined(Cut(chunk, offset, chunkSize)) == if offset >= |chunk| then [] else chunk[offset..]
    ensures forall p | p in Cut(chunk, offset, chunkSize) :: 0 < |p| <= chunkSize
    decreases |chunk| - offset
  {
    if offset >= |chunk| {
    } else {
      CutJoins(chunk, offset + chunkSize, chunkSize);
      var rest := Cut(chunk, offset + chunkSize, chunkSize);
      var cut := Min(offset + chunkSize, |chunk|);
      assert Cut(chunk, offset, chunkSize)[1..] == rest;
      assert chunk[offset..] == chunk[offset..cut] + chunk[cut..];
    }
  }

  lemma {:induction false} PiecesJoin(current: Bytes, offset: nat, source: seq<Bytes>, chunkSize: nat)
    requires chunkSize > 0 && offset <= |current|
    ensures Joined(Pieces(current, offset, source, chunkSize)) == current[offset..] + Joined(source)
    ensures forall p | p in Pieces(current, offset, source, chunkSize) :: 0 < |p| <= chunkSize
    decreases |source|
  {
    CutJoins(current, offset, chunkSize);
    if source == [] {
      assert Cut(current, offset, chunkSize) + [] == Cut(current, offset, chunkSize);
    } else {
      PiecesJoin(source[0], 0, source[1..], chunkSize);
      JoinedAppend(Cut(current, offset, chunkSize), Pieces(source[0], 0, source[1..], chunkSize));
      assert source[0][0..] == source[0];
    }
  }

  /**
   * Whatever the chunks and the chunk size: the payloads concatenate to the
   * stream, sizes are declared exactly and stay within the limit, exactly the
   * final command carries LAST, and an empty stream is the single `BDAT 0 LAST`.
   */
  lemma PlanCarriesStream(source: seq<Bytes>, chunkSize: nat)
    requires chunkSize > 0
    ensures var plan := Plan(source, chunkSize);
      && Payloads(plan) == Joined(source)
      && (forall c | c in plan :: c.size == |c.payload| <= chunkSize)
      && (forall i | 0 <= i < |plan| :: plan[i].last <==> i == |plan| - 1)
      && (Joined(source) == [] <==> plan == [Chunk(0, true, [])])
  {
    PiecesJoin([], 0, source, chunkSize);
    var pieces, plan := Rechunk(source, chunkSize), Plan(source, chunkSize);
    assert [][0..] + Joined(source) == Joined(source);
    if pieces != [] {
      PayloadsArePieces(plan, pieces);
      assert 0 < |pieces[0]| <= |Joined(pieces)|;
    }
  }

  lemma {:induction false} PayloadsArePieces(plan: seq<Chunk>, pieces: seq<Bytes>)
    requires |plan| == |pieces| && forall i | 0 <= i < |plan| :: plan[i].payload == pieces[i]
    ensures Payloads(plan) == Joined(pieces)
  {
    if plan == [] {
    } else {
      PayloadsArePieces(plan[1..], pieces[1..]);
    }
  }
}
