/**
 * What a TCP receiver makes of its stream, chunk by chunk, and the proof that the chunking
 * does not matter. `TcpTransport` and `ClientTransport` implement `Receive` in place.
 */
module TcpStream {
  import opened Bytes
  import opened Tlv

  const MAX_PACKET_SIZE: nat := 8192

  /** Blocks handed up, bytes waiting in the receive buffer, and whether a parse error closed it. */
  datatype Stream = Stream(delivered: seq<Block>, buffer: seq<Byte>, closed: bool)

  const INITIAL := Stream([], [], false)

  /** One completed receive. */
  function Receive(st: Stream, chunk: seq<Byte>): Stream {
    var c := CutBlocks(st.buffer + chunk);
    Stream(st.delivered + c.blocks, c.rest, |c.rest| == MAX_PACKET_SIZE)
  }

  /** Every receive was posted on an open stream and stayed within the free space. */
  ghost predicate Fits(st: Stream, chunks: seq<seq<Byte>>)
    decreases |chunks|
  {
    chunks != [] ==>
      && !st.closed
      && |st.buffer| + |chunks[0]| <= MAX_PACKET_SIZE
      && Fits(Receive(st, chunks[0]), chunks[1..])
  }

  function Run(st: Stream, chunks: seq<seq<Byte>>): Stream
    decreases |chunks|
  {
    if chunks == [] then st else Run(Receive(st, chunks[0]), chunks[1..])
  }

  function Flatten(chunks: seq<seq<Byte>>): seq<Byte> {
    if chunks == [] then [] else chunks[0] + Flatten(chunks[1..])
  }

  /** The state as a function of the bytes alone. */
  function OfBytes(s: seq<Byte>): Stream {
    var c := CutBlocks(s);
    Stream(c.blocks, c.rest, |c.rest| == MAX_PACKET_SIZE)
  }

  lemma ReceiveOfBytes(s: seq<Byte>, chunk: seq<Byte>)
    ensures Receive(OfBytes(s), chunk) == OfBytes(s + chunk)
  {
    CutBlocksAppend(s, chunk);
  }

  lemma {:induction false} RunFrom(s: seq<Byte>, chunks: seq<seq<Byte>>)
    ensures Run(OfBytes(s), chunks) == OfBytes(s + Flatten(chunks))
    decreases |chunks|
  {
    hide OfBytes, Receive;
    if chunks == [] {
      assert s + Flatten(chunks) == s;
    } else {
      ReceiveOfBytes(s, chunks[0]);
      RunFrom(s + chunks[0], chunks[1..]);
      assert s + chunks[0] + Flatten(chunks[1..]) == s + Flatten(chunks);
    }
  }

  /**
   * The blocks delivered and the bytes still buffered are the greedy parse of everything received,
   * and the stream is closed exactly when the buffer is full with no complete block at its front.
   */
  lemma RunIsGreedyParse(chunks: seq<seq<Byte>>)
    ensures var st := Run(INITIAL, chunks);
            && IsCut(Flatten(chunks), Cut(st.delivered, st.buffer))
            && (st.closed <==> |st.buffer| == MAX_PACKET_SIZE)
  {
    NothingInNoBytes();
    RunFrom([], chunks);
    assert [] + Flatten(chunks) == Flatten(chunks);
    CutBlocksIsCut(Flatten(chunks));
  }

  /** The stream closes on 8192 buffered bytes that begin with no complete block, and on no fewer. */
  lemma ClosesAt8192(s: seq<Byte>)
    requires ReadBlock(s).None?
    ensures Receive(INITIAL, s).closed <==> |s| == 8192
  {
    assert [] + s == s;
  }

  /** Two splits of one stream deliver the same blocks and end in the same state. */
  lemma {:induction false} ChunkingIndependence(a: seq<seq<Byte>>, b: seq<seq<Byte>>)
    requires Flatten(a) == Flatten(b)
    ensures Run(INITIAL, a) == Run(INITIAL, b)
  {
    RunIsGreedyParse(a);
    RunIsGreedyParse(b);
    var s, t := Run(INITIAL, a), Run(INITIAL, b);
    CutIsUnique(Flatten(a), Cut(s.delivered, s.buffer), Cut(t.delivered, t.buffer));
  }

  /** Until it closes, a fitting run leaves room for the next receive; it never overfills the buffer. */
  lemma {:induction false} BufferBound(st: Stream, chunks: seq<seq<Byte>>)
    requires |st.buffer| <= MAX_PACKET_SIZE && (st.closed <==> |st.buffer| == MAX_PACKET_SIZE)
    requires Fits(st, chunks)
    ensures var end := Run(st, chunks);
            |end.buffer| <= MAX_PACKET_SIZE && (!end.closed ==> 0 < MAX_PACKET_SIZE - |end.buffer|)
    decreases |chunks|
  {
    if chunks != [] {
      CutBlocksIsCut(st.buffer + chunks[0]);
      BufferBound(Receive(st, chunks[0]), chunks[1..]);
    }
  }

  /**
   * Where a stream closes does not depend on the chunking either: once some prefix of the stream
   * closes it, every split that gets that far stops exactly there.
   */
  lemma {:induction false} ClosesAtTheSamePlace(s: seq<Byte>, chunks: seq<seq<Byte>>, p: nat)
    requires |s| <= p <= |s + Flatten(chunks)|
    requires OfBytes((s + Flatten(chunks))[..p]).closed
    requires Fits(OfBytes(s), chunks)
    ensures p == |s + Flatten(chunks)|
    decreases |chunks|
  {
    var whole := s + Flatten(chunks);
    if chunks == [] {
      assert whole == s;
    } else {
      var next := s + chunks[0];
      assert next + Flatten(chunks[1..]) == whole;
      ReceiveOfBytes(s, chunks[0]);
      if |next| <= p {
        ClosesAtTheSamePlace(next, chunks[1..], p);
      } else {
        // the closing prefix would end inside this chunk, and the chunk would not have fitted
        assert s + whole[|s|..p] == whole[..p];
        RemainderOnlyGrows(s, whole[|s|..p]);
        assert false;
      }
    }
  }

  lemma {:induction false} RemainderOnlyGrows(s: seq<Byte>, t: seq<Byte>)
    ensures |CutBlocks(s + t).rest| <= |CutBlocks(s).rest| + |t|
  {
    CutBlocksAppend(s, t);
    CutBlocksIsCut(CutBlocks(s).rest + t);
  }

  /** Blocks that fit the receive buffer. */
  ghost predicate Sendable(bs: seq<Block>) {
    forall b :: b in bs ==> WellSized(b) && |EncodeBlock(b)| <= MAX_PACKET_SIZE
  }

  /**
   * No false shutdown: while the bytes received are the beginning of well-formed blocks that fit
   * the buffer, the stream stays open and exactly the blocks that arrived whole are delivered.
   */
  lemma {:induction false} NoFalseShutdown(s: seq<Byte>, sent: seq<Block>)
    requires Sendable(sent) && s <= EncodeAll(sent)
    ensures var st := OfBytes(s);
            && !st.closed
            && st.delivered <= sent
            && (st.delivered != sent ==> st.buffer < EncodeBlock(sent[|st.delivered|]))
            && (s == EncodeAll(sent) ==> st.delivered == sent && st.buffer == [])
    decreases |sent|
  {
    hide EncodeBlock, ReadBlock;
    if sent == [] {
      NothingInNoBytes();
    } else {
      var e := EncodeBlock(sent[0]);
      assert sent[0] in sent;
      if e <= s {
        ReadBlockExact(s, sent[0]);
        assert s[|e|..] <= EncodeAll(sent[1..]);
        NoFalseShutdown(s[|e|..], sent[1..]);
        assert sent == [sent[0]] + sent[1..];
      } else {
        TwoPrefixes(s, e, EncodeAll(sent));
        PartialBlockIsNotRead(s, sent[0]);
      }
    }
  }

  lemma TwoPrefixes(s: seq<Byte>, e: seq<Byte>, whole: seq<Byte>)
    requires s <= whole && e <= whole
    ensures e <= s || s < e
  {
    if |e| <= |s| {
      assert s[..|e|] == whole[..|e|];
    } else {
      assert e[..|s|] == whole[..|s|];
    }
  }

  /** A proper prefix of an encoding holds no complete block. */
  lemma PartialBlockIsNotRead(s: seq<Byte>, b: Block)
    requires WellSized(b) && s < EncodeBlock(b)
    ensures ReadBlock(s).None?
  {
    hide EncodeBlock, ReadBlock;
    if ReadBlock(s).Some? {
      var t := EncodeBlock(b)[|s|..];
      assert s + t == EncodeBlock(b);
      ReadBlockStable(s, t);
      ReadBlockExact(s + t, b);
    }
  }

  /** Complete blocks, then a full buffer that no block of at most that size begins. */
  ghost predicate Overfull(s: seq<Byte>, c: Cut) {
    && s == EncodeAll(c.blocks) + c.rest
    && AllWellSized(c.blocks)
    && |c.rest| == MAX_PACKET_SIZE
    && forall b :: WellSized(b) && |EncodeBlock(b)| <= MAX_PACKET_SIZE ==> !(EncodeBlock(b) <= c.rest)
  }

  /** The converse of `NoFalseShutdown`: only an oversize or malformed block closes a stream. */
  lemma ClosedOnlyByOversizeOrGarbage(s: seq<Byte>)
    ensures OfBytes(s).closed <==> exists c :: Overfull(s, c)
  {
    hide EncodeBlock;
    var here := CutBlocks(s);
    CutBlocksIsCut(s);
    if OfBytes(s).closed {
      assert Overfull(s, here);
    }
    if c :| Overfull(s, c) {
      assert IsCut(s, c);
      CutIsUnique(s, c, here);
    }
  }
}
