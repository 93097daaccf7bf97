/** The router's TCP transport: a fixed receive buffer cut in place, and a queue with one write in flight. */
module TcpTransport {
  import opened Bytes
  import opened Tlv
  import opened TcpStream

  /** How an asynchronous receive completes. */
  datatype Completion = Received(chunk: seq<Byte>) | Aborted | Failed

  class TcpTransport {
    var receiveBuffer: array<Byte>
    var receivedBufferSize: nat
    var sendQueue: seq<Block>

    // what asio holds for this transport
    var receivePosted: bool        // an async_receive is outstanding
    var timerFinite: bool          // the receive timer was last set to the receive timeout, not to infinity
    var writes: seq<Block>         // the async_writes outstanding
    var shutdownPosted: bool       // shutdown() was called
    var writeFailed: bool          // a write completed with an error
    var closed: bool               // the posted shutdown has run
    var notices: nat               // how often the face was told that its transport is gone

    ghost var received: seq<Byte>       // all bytes received so far
    ghost var delivered: seq<Block>     // all blocks handed to the face
    ghost var submitted: seq<Block>     // all blocks given to send()
    ghost var written: seq<Block>       // all blocks whose write completed

    /** The receive side as a value. */
    ghost function Stream(): Stream
      reads this`receiveBuffer, this`receivedBufferSize, this`delivered, receiveBuffer
      requires receivedBufferSize <= receiveBuffer.Length
    {
      TcpStream.Stream(delivered, receiveBuffer[..receivedBufferSize], receivedBufferSize == MAX_PACKET_SIZE)
    }

    /**
     * The stream state is the greedy parse of all bytes received, and while a receive is posted it
     * has room.
     */
    ghost predicate ReceiverValid()
      reads this`receiveBuffer, this`receivedBufferSize, this`received, this`delivered, receiveBuffer
      reads this`receivePosted
    {
      && receiveBuffer.Length == MAX_PACKET_SIZE
      && receivedBufferSize <= MAX_PACKET_SIZE
      && Stream() == OfBytes(received)
      && (receivePosted ==> receivedBufferSize < MAX_PACKET_SIZE)
    }

    /**
     * Until the transport is closed, what was written followed by the queue is what was submitted, and
     * one write is in flight, of the front block, exactly while the queue is not empty and none failed.
     */
    ghost predicate SenderValid()
      reads this`closed, this`written, this`sendQueue, this`submitted, this`writes, this`writeFailed
    {
      && (!closed ==>
            && written + sendQueue == submitted
            && writes == if sendQueue == [] || writeFailed then [] else [sendQueue[0]])
      && (!closed && writeFailed ==> sendQueue != [])
    }

    /** A failed write, and a full buffer, which only a parse error leaves, post a shutdown. */
    ghost predicate Valid()
      reads this, receiveBuffer
    {
      && ReceiverValid() && SenderValid()
      && (writeFailed || closed || receivedBufferSize == MAX_PACKET_SIZE ==> shutdownPosted)
    }

    constructor ()
      ensures Valid() && fresh(receiveBuffer)
      ensures received == [] && submitted == [] && !receivePosted && !shutdownPosted && !closed
    {
      receiveBuffer := new Byte[MAX_PACKET_SIZE];
      receivedBufferSize := 0;
      sendQueue, writes := [], [];
      receivePosted, timerFinite := false, false;
      shutdownPosted, writeFailed, closed, notices := false, false, false, 0;
      received, delivered, submitted, written := [], [], [], [];
      new;
      NothingInNoBytes();
    }

    method Start()
      requires Valid() && !receivePosted && receivedBufferSize == 0
      modifies this`receivePosted, this`timerFinite
      ensures Valid() && receivePosted && !timerFinite
    {
      AsyncReceive(false);
    }

    /** Post a receive into the free part of the buffer, which is never empty. */
    method AsyncReceive(finite: bool)
      requires ReceiverValid() && receivedBufferSize < MAX_PACKET_SIZE
      modifies this`receivePosted, this`timerFinite
      ensures ReceiverValid() && receivePosted && timerFinite == finite
    {
      receivePosted, timerFinite := true, finite;
    }

    method Shutdown()
      modifies this`shutdownPosted
      ensures shutdownPosted
    {
      shutdownPosted := true;
    }

    /**
     * A receive completes. Its bytes extend the stream by `Receive`; if that fills the buffer with no
     * complete block the transport shuts down, and otherwise it posts the next receive. The receive
     * timer runs with its finite timeout while part of a block is waiting.
     */
    method HandleReceive(c: Completion)
      requires Valid() && receivePosted
      requires c.Received? ==> receivedBufferSize + |c.chunk| <= MAX_PACKET_SIZE
      modifies this`receivedBufferSize, this`receivePosted, this`timerFinite, this`shutdownPosted
      modifies this`received, this`delivered, receiveBuffer
      ensures Valid()
      ensures c.Received? ==>
                && received == old(received) + c.chunk
                && Stream() == Receive(old(Stream()), c.chunk)
                && receivePosted == !Stream().closed
                && shutdownPosted == (old(shutdownPosted) || Stream().closed)
                && (receivePosted && c.chunk != [] ==> timerFinite == (receivedBufferSize != 0))
      ensures !c.Received? ==>
                && Stream() == old(Stream()) && received == old(received)
                && !receivePosted
                && shutdownPosted == (old(shutdownPosted) || c.Failed?)
    {
      hide CutBlocks, OfBytes, Receive, SenderValid;
      receivePosted := false;
      match c {
        case Received(chunk) =>
          var ok, offset := TakeBytes(chunk);
          if !ok && receivedBufferSize == receiveBuffer.Length && offset == 0 {
            Shutdown();
            return;
          }
          var finite := KeepRest(offset);
          AsyncReceive(finite);
        case Aborted =>
        case Failed =>
          Shutdown();
      }
    }

    /**
     * Append the chunk to the buffer and hand up every complete block. `offset` is where the blocks
     * end; `ok` says that no incomplete block follows them.
     */
    method TakeBytes(chunk: seq<Byte>) returns (ok: bool, offset: nat)
      requires ReceiverValid() && receivedBufferSize + |chunk| <= MAX_PACKET_SIZE
      modifies this`receivedBufferSize, this`received, this`delivered, receiveBuffer
      ensures receivedBufferSize == old(receivedBufferSize) + |chunk|
      ensures received == old(received) + chunk
      ensures var st := Receive(old(Stream()), chunk);
              && st == OfBytes(received)
              && delivered == st.delivered
              && offset <= receivedBufferSize
              && receiveBuffer[offset..receivedBufferSize] == st.buffer
              && st.closed == (receivedBufferSize - offset == MAX_PACKET_SIZE)
              && ok == (offset == receivedBufferSize)
    {
      hide CutBlocks;
      ReceiveOfBytes(received, chunk);
      Fill(chunk);
      received := received + chunk;
      assert receiveBuffer[0..receivedBufferSize] == old(Stream().buffer) + chunk;
      ok, offset := CutFront();
    }

    /** The kernel writes the received bytes behind those waiting. */
    method Fill(chunk: seq<Byte>)
      requires receivedBufferSize + |chunk| <= receiveBuffer.Length
      modifies this`receivedBufferSize, receiveBuffer
      ensures receivedBufferSize == old(receivedBufferSize) + |chunk|
      ensures receiveBuffer[..receivedBufferSize] == old(receiveBuffer[..receivedBufferSize]) + chunk
    {
      var i := 0;
      while i < |chunk|
        invariant 0 <= i <= |chunk|
        invariant receiveBuffer[..receivedBufferSize + i] == old(receiveBuffer[..receivedBufferSize]) + chunk[..i]
        modifies receiveBuffer
      {
        receiveBuffer[receivedBufferSize + i] := chunk[i];
        i := i + 1;
      }
      assert chunk[..i] == chunk;
      receivedBufferSize := receivedBufferSize + |chunk|;
    }

    /** Hand up every complete block at the front of the buffer. */
    method CutFront() returns (ok: bool, offset: nat)
      requires receivedBufferSize <= receiveBuffer.Length
      modifies this`delivered
      ensures var c := CutBlocks(receiveBuffer[0..receivedBufferSize]);
              && delivered == old(delivered) + c.blocks
              && offset <= receivedBufferSize
              && receiveBuffer[offset..receivedBufferSize] == c.rest
              && ok == (offset == receivedBufferSize)
    {
      hide ReadBlock;
      ok, offset := true, 0;
      ghost var all := CutBlocks(receiveBuffer[0..receivedBufferSize]);
      ghost var done := [];
      while 0 < receivedBufferSize - offset
        invariant offset <= receivedBufferSize && ok
        invariant delivered == old(delivered) + done
        invariant all == Ahead(done, CutBlocks(receiveBuffer[offset..receivedBufferSize]))
        modifies this`delivered
      {
        var block := ReadBlock(receiveBuffer[offset..receivedBufferSize]);
        if block.None? {
          ok := false;
          break;
        }
        var (b, k) := block.value;
        assert receiveBuffer[offset..receivedBufferSize][k..] == receiveBuffer[offset + k..receivedBufferSize];
        AheadStep(done, b, CutBlocks(receiveBuffer[offset + k..receivedBufferSize]));
        offset := offset + k;
        delivered, done := delivered + [b], done + [b];
      }
      assert done + [] == done;
    }

    /** Drop the blocks before `offset`. Unless nothing is left behind them, the next receive is timed. */
    method KeepRest(offset: nat) returns (finite: bool)
      requires offset <= receivedBufferSize <= receiveBuffer.Length
      modifies this`receivedBufferSize, receiveBuffer
      ensures receivedBufferSize == old(receivedBufferSize) - offset
      ensures receiveBuffer[..receivedBufferSize] == old(receiveBuffer[offset..receivedBufferSize])
      ensures finite == (offset == 0 || receivedBufferSize != 0)
    {
      finite := false;
      if 0 < offset {
        if offset < receivedBufferSize {
          ShiftDown(offset);
          finite := true;
        } else {
          receivedBufferSize := 0;
        }
      } else {
        finite := true;
      }
    }

    /** Move the bytes from `offset` on to the front of the buffer. */
    method ShiftDown(offset: nat)
      requires 0 < offset < receivedBufferSize <= receiveBuffer.Length
      modifies this`receivedBufferSize, receiveBuffer
      ensures receivedBufferSize == old(receivedBufferSize) - offset
      ensures receiveBuffer[..receivedBufferSize] == old(receiveBuffer[offset..receivedBufferSize])
    {
      var i := 0;
      while i < receivedBufferSize - offset
        invariant 0 <= i <= receivedBufferSize - offset
        invariant forall j :: 0 <= j < i ==> receiveBuffer[j] == old(receiveBuffer[offset + j])
        invariant forall j :: i <= j < receiveBuffer.Length ==> receiveBuffer[j] == old(receiveBuffer[j])
        modifies receiveBuffer
      {
        receiveBuffer[i] := receiveBuffer[offset + i];
        i := i + 1;
      }
      receivedBufferSize := receivedBufferSize - offset;
    }

    /** The receive timer fires or is cancelled. */
    method HandleTimeout(cancelled: bool)
      requires Valid()
      modifies this`shutdownPosted
      ensures Valid() && shutdownPosted == (old(shutdownPosted) || !cancelled)
    {
      if !cancelled {
        Shutdown();
      }
    }

    /** The posted shutdown runs: whatever was still queued is dropped, and the face is told if it lives. */
    method HandleShutdown(attached: bool)
      requires Valid() && shutdownPosted
      modifies this`sendQueue, this`closed, this`notices
      ensures Valid() && closed && sendQueue == []
      ensures notices == old(notices) + if attached then 1 else 0
    {
      sendQueue, closed := [], true;
      if attached {
        notices := notices + 1;
      }
    }

    method Send(packet: Block)
      requires Valid()
      modifies this`sendQueue, this`writes, this`submitted
      ensures Valid()
      ensures sendQueue == old(sendQueue) + [packet] && submitted == old(submitted) + [packet]
      ensures writes == old(writes) + if old(sendQueue) == [] then [packet] else []
      ensures closed == old(closed)
    {
      hide ReceiverValid;
      var wasQueueEmpty := sendQueue == [];
      sendQueue, submitted := sendQueue + [packet], submitted + [packet];
      if wasQueueEmpty {
        AsyncSend();
      }
    }

    method AsyncSend()
      requires sendQueue != []
      modifies this`writes
      ensures writes == old(writes) + [sendQueue[0]]
    {
      writes := writes + [sendQueue[0]];
    }

    /**
     * A write completes. A success pops its block and writes the next one, if any; it cannot come after
     * the close, which cancels the write first. An error leaves the block queued and shuts down.
     */
    method HandleSend(error: bool)
      requires Valid() && writes != [] && (closed ==> error)
      modifies this`sendQueue, this`writes, this`written, this`writeFailed, this`shutdownPosted
      ensures Valid() && shutdownPosted == (old(shutdownPosted) || error)
      ensures !error ==> old(sendQueue) != [] && sendQueue == old(sendQueue)[1..]
      ensures !error ==> written == old(written) + [old(sendQueue)[0]]
      ensures error ==> sendQueue == old(sendQueue) && written == old(written) && writes == old(writes)[1..]
    {
      hide ReceiverValid;
      writes := writes[1..];
      if !error {
        written := written + [sendQueue[0]];
        sendQueue := sendQueue[1..];
        if sendQueue != [] {
          AsyncSend();
        }
      } else {
        writeFailed := true;
        Shutdown();
      }
    }
  }

  /** On every run, what was delivered is the beginning of the greedy parse of the bytes received. */
  lemma DeliveredIsGreedyParse(t: TcpTransport)
    requires t.Valid()
    ensures IsCut(t.received, Cut(t.delivered, t.receiveBuffer[..t.receivedBufferSize]))
  {
    CutBlocksIsCut(t.received);
  }
}
