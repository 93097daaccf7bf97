/**
 * One direction of a link, end to end: packets are encoded, queued, written as one byte stream, read in
 * chunks of any size, cut into blocks and decoded. What arrives is what was sent, in order.
 */
module TcpLink {
  import opened Bytes
  import opened Tlv
  import opened TcpStream
  import opened ClientTransport
  import opened Wire

  function PacketBlocks(ps: seq<Packet>): (bs: seq<Block>)
    ensures |bs| == |ps| && forall i :: 0 <= i < |ps| ==> bs[i] == PacketBlock(ps[i])
  {
    seq(|ps|, i requires 0 <= i < |ps| => PacketBlock(ps[i]))
  }

  /** Packets whose encodings fit a receive buffer. */
  ghost predicate LinkFits(ps: seq<Packet>) {
    forall i :: 0 <= i < |ps| ==> PacketFits(ps[i]) && |EncodeBlock(PacketBlock(ps[i]))| <= MAX_PACKET_SIZE
  }

  lemma LinkFitsIsSendable(ps: seq<Packet>)
    requires LinkFits(ps)
    ensures Sendable(PacketBlocks(ps))
  {
    hide EncodeBlock, PacketFits;
    forall i | 0 <= i < |ps| ensures WellSized(PacketBlocks(ps)[i]) {
      ValueIsShorter(PacketBlock(ps[i]));
    }
  }

  lemma ValueIsShorter(b: Block)
    ensures |b.value| < |EncodeBlock(b)|
  {
  }

  /**
   * However the stream of encoded packets is split, and however much of it has arrived, the receiver is
   * open, what it delivered decodes to the first packets sent, and after all bytes it has delivered all.
   */
  lemma LinkDeliversInOrder(sent: seq<Packet>, chunks: seq<seq<Byte>>)
    requires LinkFits(sent) && Flatten(chunks) <= EncodeAll(PacketBlocks(sent))
    ensures var st := Run(INITIAL, chunks);
            && !st.closed && |st.delivered| <= |sent|
            && (forall i :: 0 <= i < |st.delivered| ==> DecodePacket(st.delivered[i]) == Some(sent[i]))
            && (Flatten(chunks) == EncodeAll(PacketBlocks(sent)) ==> |st.delivered| == |sent| && st.buffer == [])
  {
    hide EncodeBlock, PacketFits, PacketBlock, DecodePacket, EncodeAll, Flatten;
    LinkFitsIsSendable(sent);
    NothingInNoBytes();
    RunFrom([], chunks);
    assert [] + Flatten(chunks) == Flatten(chunks);
    NoFalseShutdown(Flatten(chunks), PacketBlocks(sent));
    var st := Run(INITIAL, chunks);
    forall i | 0 <= i < |st.delivered| ensures DecodePacket(st.delivered[i]) == Some(sent[i]) {
      assert st.delivered[i] == PacketBlocks(sent)[i];
      PacketRoundTrip(sent[i]);
    }
  }

  // ---- The client's end

  /** The publications from the rendezvous point among the packets. */
  function PubsIn(ps: seq<Packet>): seq<Packet> {
    if ps == [] then [] else (if ps[0].PubFromRp? then [ps[0]] else []) + PubsIn(ps[1..])
  }

  function ClientRun(st: Client, chunks: seq<seq<Byte>>): Client
    decreases |chunks|
  {
    if chunks == [] || st.threw || st.closed then st else ClientRun(ClientReceive(st, chunks[0]), chunks[1..])
  }

  const NEW_CLIENT := Client([], [], false, false)

  /** What a client that has not thrown is after the bytes `s`. */
  function ClientOf(s: seq<Byte>): Client {
    Client(PubsOnly(OfBytes(s).delivered), OfBytes(s).buffer, false, OfBytes(s).closed)
  }

  lemma {:induction false} PubsOfPackets(ps: seq<Packet>)
    ensures PubsOnly(PacketBlocks(ps)) == PacketBlocks(PubsIn(ps))
  {
    hide PubsOnly, PacketBlock, PubsIn;
    if ps == [] {
      NoPackets();
      assert PacketBlocks(ps) == [];
    } else {
      var p, rest := ps[0], ps[1..];
      PubsOfPackets(rest);
      assert ps == [p] + rest;
      PacketBlocksCons(p, rest);
      PacketBlocksCons(p, PubsIn(rest));
      PubsOnlyCons(PacketBlock(p), PacketBlocks(rest));
      TypeOfPacket(p);
      PubsInCons(p, rest);
    }
  }

  lemma NoPackets()
    ensures PubsIn([]) == [] && PubsOnly([]) == []
  {
  }

  lemma PacketBlocksCons(p: Packet, ps: seq<Packet>)
    ensures PacketBlocks([p] + ps) == [PacketBlock(p)] + PacketBlocks(ps)
  {
    hide PacketBlock;
  }

  lemma PubsInCons(p: Packet, ps: seq<Packet>)
    ensures PubsIn([p] + ps) == if p.PubFromRp? then [p] + PubsIn(ps) else PubsIn(ps)
  {
    assert ([p] + ps)[1..] == ps;
  }

  lemma TypeOfPacket(p: Packet)
    ensures PacketBlock(p).typ == PUB_FROM_RP <==> p.PubFromRp?
  {
  }

  lemma PacketsAreNotBad(ps: seq<Packet>, blocks: seq<Block>)
    requires LinkFits(ps) && forall b :: b in blocks ==> b in PacketBlocks(ps)
    ensures !Undecodable(blocks)
  {
    hide PacketBlock, PacketFits, DecodePub, EncodeBlock;
    forall b | b in blocks && b.typ == PUB_FROM_RP ensures DecodePub(PUB_FROM_RP, b).Some? {
      var i :| 0 <= i < |ps| && PacketBlocks(ps)[i] == b;
      PacketDecodes(ps[i]);
    }
  }

  lemma PacketDecodes(p: Packet)
    requires PacketFits(p)
    ensures PacketBlock(p).typ == PUB_FROM_RP ==> DecodePub(PUB_FROM_RP, PacketBlock(p)).Some?
  {
    hide DecodePub;
    if p.PubFromRp? { PubRoundTrip(PUB_FROM_RP, p.cd, Block(CONTENT, p.content)); }
  }

  lemma ClientStep(s: seq<Byte>, chunk: seq<Byte>, sent: seq<Packet>)
    requires LinkFits(sent) && s + chunk <= EncodeAll(PacketBlocks(sent))
    ensures ClientReceive(ClientOf(s), chunk) == ClientOf(s + chunk)
  {
    hide EncodeBlock, PacketFits, PacketBlock, DecodePub, EncodeAll, CutBlocks, PubsOnly, FirstBad, LinkFits,
      Undecodable;
    CutBlocksAppend(s, chunk);
    LinkFitsIsSendable(sent);
    NoFalseShutdown(s + chunk, PacketBlocks(sent));
    var more := CutBlocks(OfBytes(s).buffer + chunk).blocks;
    assert OfBytes(s + chunk).delivered == OfBytes(s).delivered + more;
    forall b | b in more ensures b in PacketBlocks(sent) {
      assert b in OfBytes(s + chunk).delivered;
    }
    PacketsAreNotBad(sent, more);
    FirstBadIff(more);
    PubsOnlyConcat(OfBytes(s).delivered, more);
  }

  lemma {:induction false} ClientRunFrom(s: seq<Byte>, chunks: seq<seq<Byte>>, sent: seq<Packet>)
    requires LinkFits(sent) && s + Flatten(chunks) <= EncodeAll(PacketBlocks(sent))
    ensures ClientRun(ClientOf(s), chunks) == ClientOf(s + Flatten(chunks))
    decreases |chunks|
  {
    hide ClientReceive, OfBytes, EncodeAll, LinkFits, PacketBlock;
    if chunks == [] {
      assert s + Flatten(chunks) == s;
    } else {
      assert s + chunks[0] + Flatten(chunks[1..]) == s + Flatten(chunks);
      OpenSoFar(s, s + Flatten(chunks), sent);
      ClientStep(s, chunks[0], sent);
      ClientRunFrom(s + chunks[0], chunks[1..], sent);
    }
  }

  lemma OpenSoFar(s: seq<Byte>, t: seq<Byte>, sent: seq<Packet>)
    requires LinkFits(sent) && s <= t <= EncodeAll(PacketBlocks(sent))
    ensures !ClientOf(s).closed && !ClientOf(t).closed
  {
    hide EncodeBlock, PacketFits, PacketBlock, EncodeAll, CutBlocks, LinkFits;
    LinkFitsIsSendable(sent);
    NoFalseShutdown(s, PacketBlocks(sent));
    NoFalseShutdown(t, PacketBlocks(sent));
  }

  /**
   * However the stream of encoded packets is split, and however much of it has arrived, the client has not
   * thrown and not closed. Its callback has got exactly the publications from the rendezvous point among the
   * `n` packets that arrived whole, in order, and each decodes to what was sent.
   */
  lemma ClientDeliversInOrder(sent: seq<Packet>, chunks: seq<seq<Byte>>) returns (n: nat)
    requires LinkFits(sent) && Flatten(chunks) <= EncodeAll(PacketBlocks(sent))
    ensures var st := ClientRun(NEW_CLIENT, chunks);
            && !st.threw && !st.closed && n <= |sent|
            && |st.callbacks| == |PubsIn(sent[..n])|
            && (forall i :: 0 <= i < |st.callbacks| ==> DecodePacket(st.callbacks[i]) == Some(PubsIn(sent[..n])[i]))
            && (n < |sent| ==> Flatten(chunks) < EncodeAll(PacketBlocks(sent[..n + 1])))
            && EncodeAll(PacketBlocks(sent[..n])) <= Flatten(chunks)
  {
    hide EncodeBlock, PacketFits, PacketBlock, DecodePacket, EncodeAll, CutBlocks, PubsOnly;
    var s := Flatten(chunks);
    EmptyClient();
    assert [] + s == s;
    ClientRunFrom([], chunks, sent);
    LinkFitsIsSendable(sent);
    NoFalseShutdown(s, PacketBlocks(sent));
    var done := OfBytes(s).delivered;
    n := |done|;
    assert done == PacketBlocks(sent[..n]);
    PubsOfPackets(sent[..n]);
    PubsFit(sent, n);
    forall i | 0 <= i < |PubsIn(sent[..n])|
      ensures DecodePacket(PacketBlocks(PubsIn(sent[..n]))[i]) == Some(PubsIn(sent[..n])[i])
    {
      PacketRoundTrip(PubsIn(sent[..n])[i]);
    }
    CutBlocksIsCut(s);
    if n < |sent| {
      assert PacketBlocks(sent[..n + 1]) == done + [PacketBlock(sent[n])];
      EncodeAllConcat(done, [PacketBlock(sent[n])]);
      EncodeAllOne(PacketBlock(sent[n]));
    }
  }

  lemma EmptyClient()
    ensures ClientOf([]) == NEW_CLIENT
  {
    NothingInNoBytes();
  }

  lemma {:induction false} PubsFit(sent: seq<Packet>, n: nat)
    requires LinkFits(sent) && n <= |sent|
    ensures forall p :: p in PubsIn(sent[..n]) ==> PacketFits(p)
  {
    hide PacketFits, EncodeBlock, PacketBlock;
    PubsAreAmong(sent[..n]);
    forall p | p in PubsIn(sent[..n]) ensures PacketFits(p) {
      var i :| 0 <= i < n && sent[..n][i] == p;
      assert sent[i] == p;
    }
  }

  lemma {:induction false} PubsAreAmong(ps: seq<Packet>)
    ensures forall p :: p in PubsIn(ps) ==> p in ps
  {
    if ps != [] {
      PubsAreAmong(ps[1..]);
      assert ps == [ps[0]] + ps[1..];
    }
  }
}
