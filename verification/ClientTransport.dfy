/** The client's TCP transport: a second implementation of the same reassembly, for PubFromRp blocks only. */
module ClientTransport {
  import opened Bytes
  import opened Tlv
  import opened TcpStream
  import opened Wire

  /** The blocks a client's callback sees. */
  function PubsOnly(bs: seq<Block>): seq<Block> {
    if bs == [] then []
    else if bs[0].typ == PUB_FROM_RP then [bs[0]] + PubsOnly(bs[1..])
    else PubsOnly(bs[1..])
  }

  lemma PubsOnlyCons(b: Block, bs: seq<Block>)
    ensures PubsOnly([b] + bs) == if b.typ == PUB_FROM_RP then [b] + PubsOnly(bs) else PubsOnly(bs)
  {
    assert ([b] + bs)[1..] == bs;
  }

  lemma PubsOnlyOne(b: Block)
    ensures PubsOnly([]) == [] && PubsOnly([b]) == if b.typ == PUB_FROM_RP then [b] else []
  {
    assert [b] == [b] + [];
    PubsOnlyCons(b, []);
  }

  lemma {:induction false} PubsOnlyConcat(a: seq<Block>, b: seq<Block>)
    ensures PubsOnly(a + b) == PubsOnly(a) + PubsOnly(b)
  {
    if a == [] {
      assert a + b == b;
    } else {
      hide PubsOnly;
      PubsOnlyConcat(a[1..], b);
      assert a == [a[0]] + a[1..] && a + b == [a[0]] + (a[1..] + b);
      PubsOnlyCons(a[0], a[1..]);
      PubsOnlyCons(a[0], a[1..] + b);
      ConcatAssociative([a[0]], PubsOnly(a[1..]), PubsOnly(b));
    }
  }

  /** What the receive callback is told with an empty publication. */
  datatype Notice = BadMessage | ReceiveCancelled | ReceiveFailed | TimedOut | WaitCancelled | WaitFailed

  /** How an asynchronous receive, and a wait of the timer, completes. */
  datatype Completion = Received(chunk: seq<Byte>) | Cancelled | Failed
  datatype WaitEnd = Expired | WaitWasCancelled | WaitHadError

  /** A block for the callback that does not decode: constructing its packet throws. */
  predicate Bad(b: Block) { b.typ == PUB_FROM_RP && DecodePub(PUB_FROM_RP, b).None? }

  /** Where the first such block is, or how many blocks there are. */
  function FirstBad(bs: seq<Block>): (k: nat)
    ensures k <= |bs| && (k < |bs| ==> Bad(bs[k]))
    ensures forall i :: 0 <= i < k ==> !Bad(bs[i])
  {
    if bs == [] || Bad(bs[0]) then 0 else 1 + FirstBad(bs[1..])
  }

  lemma FirstBadIs(bs: seq<Block>, k: nat)
    requires k <= |bs| && (k < |bs| ==> Bad(bs[k])) && forall i :: 0 <= i < k ==> !Bad(bs[i])
    ensures FirstBad(bs) == k
  {
    hide Bad;
  }

  ghost predicate NoneBad(bs: seq<Block>) { forall i :: 0 <= i < |bs| ==> !Bad(bs[i]) }

  /** With no block left and none of these bad, all were handed up. */
  lemma NothingAhead(done: seq<Block>, rest: seq<Byte>)
    requires ReadBlock(rest).None? && NoneBad(done)
    ensures var c := Ahead(done, CutBlocks(rest));
            c == Cut(done, rest) && FirstBad(c.blocks) == |done| && c.blocks[..|done|] == done
  {
    hide Bad;
    assert done + [] == done;
    FirstBadIs(done, |done|);
  }

  /** One more block: what is ahead of it, what the callback has got with it, and whether it is the first bad one. */
  lemma OneBlock(done: seq<Block>, s: seq<Byte>)
    requires ReadBlock(s).Some? && NoneBad(done)
    ensures var (b, k) := ReadBlock(s).value;
            var all := Ahead(done, CutBlocks(s));
            && all == Ahead(done + [b], CutBlocks(s[k..]))
            && PubsOnly(done + [b]) == PubsOnly(done) + (if b.typ == PUB_FROM_RP then [b] else [])
            && if Bad(b) then |done| < |all.blocks| && FirstBad(all.blocks) == |done| && all.blocks[..|done|] == done
               else NoneBad(done + [b])
  {
    hide Bad, ReadBlock;
    var (b, k) := ReadBlock(s).value;
    AheadStep(done, b, CutBlocks(s[k..]));
    PubsOnlyConcat(done, [b]);
    PubsOnlyOne(b);
    var blocks := done + ([b] + CutBlocks(s[k..]).blocks);
    assert blocks[..|done|] == done;
    if Bad(b) { FirstBadIs(blocks, |done|); }
  }

  lemma NothingDone(c: Cut)
    ensures c == Ahead([], c) && NoneBad([]) && PubsOnly([]) == []
  {
    assert [] + c.blocks == c.blocks;
  }

  lemma NothingLeft(s: seq<Byte>)
    ensures s == [] ==> ReadBlock(s).None?
  {
  }

  /** The receive side as a value. */
  datatype Client = Client(callbacks: seq<Block>, buffer: seq<Byte>, threw: bool, closed: bool)

  /** One completed receive. */
  function ClientReceive(st: Client, chunk: seq<Byte>): Client {
    var c := CutBlocks(st.buffer + chunk);
    var k := FirstBad(c.blocks);
    if k < |c.blocks| then Client(st.callbacks + PubsOnly(c.blocks[..k]), st.buffer + chunk, true, false)
    else Client(st.callbacks + PubsOnly(c.blocks), c.rest, false, |c.rest| == MAX_PACKET_SIZE)
  }

  /** Some block is a publication that does not decode. */
  ghost predicate Undecodable(bs: seq<Block>) {
    exists b :: b in bs && b.typ == PUB_FROM_RP && DecodePub(PUB_FROM_RP, b).None?
  }

  lemma FirstBadIff(bs: seq<Block>)
    ensures FirstBad(bs) < |bs| <==> Undecodable(bs)
  {
    hide DecodePub, FirstBad;
    var k := FirstBad(bs);
    if k < |bs| { assert bs[k] in bs && Bad(bs[k]); }
    forall b | b in bs && Bad(b) ensures k < |bs| {
      var i :| 0 <= i < |bs| && bs[i] == b;
    }
  }

  lemma WhenThrows(st: Client, chunk: seq<Byte>)
    ensures ClientReceive(st, chunk).threw == Undecodable(CutBlocks(st.buffer + chunk).blocks)
  {
    hide CutBlocks, Undecodable, PubsOnly, FirstBad;
    FirstBadIff(CutBlocks(st.buffer + chunk).blocks);
  }

  class ClientTransport {
    var inputBuffer: array<Byte>
    var inputBufferSize: nat
    var isTimerStarted: bool
    var callbacks: seq<Block>      // the PubFromRp blocks handed to the receive callback
    var notices: seq<Notice>       // what else the callback was told
    var listening: bool            // an async_receive is outstanding
    var open: bool                 // the socket has not been closed
    var waits: nat                 // waits of the timer whose completion has not run

    ghost var received: seq<Byte>  // all bytes received so far

    ghost function Value(threw: bool): Client
      reads this, inputBuffer
      requires inputBufferSize <= inputBuffer.Length
    {
      Client(callbacks, inputBuffer[..inputBufferSize], threw, !threw && !listening)
    }

    /** The callbacks and the buffer are those of the greedy parse of all bytes received. */
    ghost predicate Valid()
      reads this, inputBuffer
    {
      && inputBuffer.Length == MAX_PACKET_SIZE
      && inputBufferSize <= MAX_PACKET_SIZE
      && callbacks == PubsOnly(CutBlocks(received).blocks)
      && inputBuffer[..inputBufferSize] == CutBlocks(received).rest
      && (listening ==> inputBufferSize < MAX_PACKET_SIZE)
    }

    constructor ()
      ensures Valid() && fresh(inputBuffer) && received == [] && listening && open
    {
      inputBuffer := new Byte[MAX_PACKET_SIZE];
      inputBufferSize, isTimerStarted, listening, open, waits := 0, false, true, true, 0;
      callbacks, notices, received := [], [], [];
      new;
      NothingInNoBytes();
    }

    /**
     * A receive completes. After bytes the client is listening again with room in the buffer, unless the
     * buffer is full with no complete block: exactly then it closes and tells the callback. A publication
     * that does not decode throws out of the handler: the callback has had those before it, and nothing is
     * received any more. An error is told to the callback, after closing if it is no cancellation.
     */
    method HandleReceive(c: Completion) returns (threw: bool)
      requires Valid() && listening
      requires c.Received? ==> inputBufferSize + |c.chunk| <= MAX_PACKET_SIZE
      modifies this, inputBuffer
      ensures inputBuffer == old(inputBuffer)
      ensures inputBufferSize <= inputBuffer.Length
      ensures c.Received? ==>
                && received == old(received) + c.chunk
                && Value(threw) == ClientReceive(old(Value(false)), c.chunk)
                && threw == Undecodable(CutBlocks(old(inputBuffer[..inputBufferSize]) + c.chunk).blocks)
                && if threw then !listening && notices == old(notices)
                      else
                        && Valid() && listening == !OfBytes(received).closed
                        && notices == old(notices) + (if listening then [] else [BadMessage])
                        && open == (old(open) && listening)
                        && (c.chunk != [] ==> isTimerStarted == (listening && inputBufferSize != 0))
      ensures !c.Received? ==>
                && Valid() && !threw && !listening && received == old(received) && callbacks == old(callbacks)
                && notices == old(notices) + [if c.Cancelled? then ReceiveCancelled else ReceiveFailed]
                && open == (old(open) && c.Cancelled?)
    {
      hide ClientReceive, CutBlocks, Undecodable;
      match c
      case Received(chunk) =>
        WhenThrows(Value(false), chunk);
        threw := TakeBytes(chunk);
      case Cancelled =>
        threw, listening, notices := false, false, notices + [ReceiveCancelled];
      case Failed =>
        threw, listening := false, false;
        Close();
        notices := notices + [ReceiveFailed];
    }

    /** Cancel the timer if it runs, and close the socket. */
    method Close()
      modifies this`isTimerStarted, this`open
      ensures !isTimerStarted && !open
    {
      isTimerStarted, open := false, false;
    }

    method TakeBytes(chunk: seq<Byte>) returns (threw: bool)
      requires Valid() && listening && inputBufferSize + |chunk| <= MAX_PACKET_SIZE
      modifies this, inputBuffer
      ensures inputBuffer == old(inputBuffer) && received == old(received) + chunk
      ensures inputBufferSize <= inputBuffer.Length
      ensures Value(threw) == ClientReceive(old(Value(false)), chunk)
      ensures if threw then !listening && notices == old(notices)
              else
                && Valid() && listening == !OfBytes(received).closed
                && notices == old(notices) + (if listening then [] else [BadMessage])
                && open == (old(open) && listening)
                && (chunk != [] ==> isTimerStarted == (listening && inputBufferSize != 0))
    {
      hide CutBlocks, PubsOnly, FirstBad;
      CutBlocksAppend(received, chunk);
      PubsOnlyConcat(CutBlocks(received).blocks, CutBlocks(inputBuffer[..inputBufferSize] + chunk).blocks);
      Fill(chunk);
      received := received + chunk;
      assert inputBuffer[0..inputBufferSize] == old(inputBuffer[..inputBufferSize]) + chunk;
      ghost var blocks := CutBlocks(old(inputBuffer[..inputBufferSize]) + chunk).blocks;
      var full, offset;
      threw, full, offset := ProcessMessage(0);
      if threw {
        listening := false;
        return;
      }
      assert blocks[..FirstBad(blocks)] == blocks;
      if !full && inputBufferSize == MAX_PACKET_SIZE && offset == 0 {
        listening := false;
        Close();
        notices := notices + [BadMessage];
        return;
      }
      if 0 < offset {
        if offset != inputBufferSize {
          ShiftDown(offset);
        } else {
          inputBufferSize := 0;
        }
      }
    }

    /** The kernel writes the received bytes behind those waiting. */
    method Fill(chunk: seq<Byte>)
      requires inputBufferSize + |chunk| <= inputBuffer.Length
      modifies this`inputBufferSize, inputBuffer
      ensures inputBufferSize == old(inputBufferSize) + |chunk|
      ensures inputBuffer[..inputBufferSize] == old(inputBuffer[..inputBufferSize]) + chunk
    {
      var i := 0;
      while i < |chunk|
        invariant 0 <= i <= |chunk|
        invariant inputBuffer[..inputBufferSize + i] == old(inputBuffer[..inputBufferSize]) + chunk[..i]
        modifies inputBuffer
      {
        inputBuffer[inputBufferSize + i] := chunk[i];
        i := i + 1;
      }
      assert chunk[..i] == chunk;
      inputBufferSize := inputBufferSize + |chunk|;
    }

    /**
     * Hand up the complete blocks from `start` on; `offset` is where they end. The first publication that
     * does not decode stops this with an exception.
     */
    method ProcessMessage(start: nat) returns (threw: bool, full: bool, offset: nat)
      requires start <= inputBufferSize <= inputBuffer.Length
      modifies this`callbacks, this`isTimerStarted, this`waits
      ensures waits == old(waits) + if isTimerStarted && !old(isTimerStarted) then 1 else 0
      ensures var c := CutBlocks(inputBuffer[start..inputBufferSize]);
              && threw == (FirstBad(c.blocks) < |c.blocks|) == Undecodable(c.blocks)
              && callbacks == old(callbacks) + PubsOnly(c.blocks[..FirstBad(c.blocks)])
              && (!threw ==>
                    && start <= offset <= inputBufferSize
                    && inputBuffer[offset..inputBufferSize] == c.rest
                    && full == (offset == inputBufferSize)
                    && isTimerStarted == !full)
    {
      hide ReadBlock, DecodePub, FirstBad, CutBlocks, PubsOnly, Ahead, NoneBad, Undecodable;
      offset := start;
      ghost var all := CutBlocks(inputBuffer[start..inputBufferSize]);
      FirstBadIff(all.blocks);
      ghost var done: seq<Block> := [];
      NothingDone(all);
      while offset < inputBufferSize
        invariant start <= offset <= inputBufferSize
        invariant all == Ahead(done, CutBlocks(inputBuffer[offset..inputBufferSize])) && NoneBad(done)
        invariant callbacks == old(callbacks) + PubsOnly(done)
        invariant isTimerStarted == old(isTimerStarted) && waits == old(waits)
        modifies this`callbacks, this`isTimerStarted, this`waits
      {
        var element := ReadBlock(inputBuffer[offset..inputBufferSize]);
        if element.None? {
          if !isTimerStarted {
            isTimerStarted, waits := true, waits + 1;
          }
          NothingAhead(done, inputBuffer[offset..inputBufferSize]);
          return false, false, offset;
        }
        var (b, k) := element.value;
        assert inputBuffer[offset..inputBufferSize][k..] == inputBuffer[offset + k..inputBufferSize];
        OneBlock(done, inputBuffer[offset..inputBufferSize]);
        if b.typ == PUB_FROM_RP {
          var pub := DecodePub(PUB_FROM_RP, b);
          if pub.None? {
            return true, false, offset;
          }
          callbacks := callbacks + [b];
        }
        done, offset := done + [b], offset + k;
      }
      NothingLeft(inputBuffer[offset..inputBufferSize]);
      NothingAhead(done, inputBuffer[offset..inputBufferSize]);
      if isTimerStarted {
        isTimerStarted := false;
      }
      return false, true, offset;
    }

    method ShiftDown(offset: nat)
      requires 0 < offset < inputBufferSize <= inputBuffer.Length
      modifies this`inputBufferSize, inputBuffer
      ensures inputBufferSize == old(inputBufferSize) - offset
      ensures inputBuffer[..inputBufferSize] == old(inputBuffer[offset..inputBufferSize])
    {
      var i := 0;
      while i < inputBufferSize - offset
        invariant 0 <= i <= inputBufferSize - offset
        invariant forall j :: 0 <= j < i ==> inputBuffer[j] == old(inputBuffer[offset + j])
        invariant forall j :: i <= j < inputBuffer.Length ==> inputBuffer[j] == old(inputBuffer[j])
        modifies inputBuffer
      {
        inputBuffer[i] := inputBuffer[offset + i];
        i := i + 1;
      }
      inputBufferSize := inputBufferSize - offset;
    }

    /**
     * A wait of the timer ends, and the callback is told. After the timeout a later receive may start the
     * timer again; an error of the timer closes the socket.
     */
    method HandleWait(end: WaitEnd)
      requires Valid() && 0 < waits
      modifies this`isTimerStarted, this`open, this`waits, this`notices
      ensures Valid() && waits == old(waits) - 1
      ensures notices == old(notices) + [match end
                                         case Expired => TimedOut
                                         case WaitWasCancelled => WaitCancelled
                                         case WaitHadError => WaitFailed]
      ensures isTimerStarted == (old(isTimerStarted) && end.WaitWasCancelled?)
      ensures open == (old(open) && !end.WaitHadError?)
    {
      waits := waits - 1;
      match end
      case Expired =>
        isTimerStarted, notices := false, notices + [TimedOut];
      case WaitWasCancelled =>
        notices := notices + [WaitCancelled];
      case WaitHadError =>
        Close();
        notices := notices + [WaitFailed];
    }
  }
}
