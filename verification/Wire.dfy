/** The wire form of descriptors and packets: two encoding passes, nested blocks, and decoding. */
module Wire {
  import opened Bytes
  import opened Tlv
  import opened Descriptors

  // ---- What is written, as blocks

  function CdBlock(cd: Cd): Block { Block(CD, EncodeAll(cd)) }

  function SubBlock(cd: Cd): Block { Block(SUB, EncodeBlock(CdBlock(cd))) }

  /** A publication of type `typ`: the descriptor, then the content. */
  function PubBlock(typ: nat, cd: Cd, content: Block): Block {
    Block(typ, EncodeBlock(CdBlock(cd)) + EncodeBlock(content))
  }

  /** Everything fits the 32-bit types and 64-bit lengths of TLV. */
  ghost predicate CdFits(cd: Cd) { AllWellSized(cd) && |EncodeBlock(CdBlock(cd))| < TWO64 }

  ghost predicate PubFits(cd: Cd, content: Block) {
    CdFits(cd) && WellSized(content) && |EncodeBlock(CdBlock(cd)) + EncodeBlock(content)| < TWO64
  }

  // ---- Reading it back

  /** `Block::get`: the first element of a type, which must exist. */
  function Get(elements: seq<Block>, typ: nat): Option<Block> {
    if elements == [] then None
    else if elements[0].typ == typ then Some(elements[0])
    else Get(elements[1..], typ)
  }

  function DecodeCd(b: Block): Option<Cd> {
    if b.typ != CD then None else ParseElements(b.value)
  }

  function DecodeSub(b: Block): Option<Cd> {
    var elements := ParseElements(b.value);
    if elements.None? || b.typ != SUB then None
    else
      var cd := Get(elements.value, CD);
      if cd.None? then None else DecodeCd(cd.value)
  }

  /** The descriptor and the content of a publication of type `typ`. */
  function DecodePub(typ: nat, b: Block): Option<(Cd, Block)> {
    var elements := ParseElements(b.value);
    if elements.None? || b.typ != typ then None
    else
      var cdBlock, content := Get(elements.value, CD), Get(elements.value, CONTENT);
      if cdBlock.None? || content.None? then None
      else
        var cd := DecodeCd(cdBlock.value);
        if cd.None? then None else Some((cd.value, content.value))
  }

  // ---- What decodes to what, exactly

  /** `b` is the first element of its type. */
  ghost predicate IsFirst(elements: seq<Block>, typ: nat, b: Block) {
    exists i :: FirstAt(elements, typ, b, i)
  }

  predicate FirstAt(elements: seq<Block>, typ: nat, b: Block, i: nat) {
    i < |elements| && elements[i] == b && b.typ == typ && forall j :: 0 <= j < i ==> elements[j].typ != typ
  }

  lemma {:induction false} GetIsFirst(elements: seq<Block>, typ: nat, b: Block)
    ensures Get(elements, typ) == Some(b) <==> IsFirst(elements, typ, b)
  {
    if elements != [] {
      GetIsFirst(elements[1..], typ, b);
      if i: nat :| FirstAt(elements[1..], typ, b, i) && elements[0].typ != typ {
        assert FirstAt(elements, typ, b, i + 1);
      }
      if i: nat :| FirstAt(elements, typ, b, i) {
        if i == 0 { assert elements[0] == b; } else { assert FirstAt(elements[1..], typ, b, i - 1); }
      }
      if elements[0].typ == typ { assert FirstAt(elements, typ, elements[0], 0); }
    }
  }

  lemma DecodeCdIff(b: Block, cd: Cd)
    ensures DecodeCd(b) == Some(cd) <==> b == CdBlock(cd) && AllWellSized(cd)
  {
    ParseElementsExact(b.value, cd);
  }

  /** The wire is elements, the first descriptor among which is `cd`; others are skipped. */
  lemma DecodeSubIff(b: Block, cd: Cd)
    ensures DecodeSub(b) == Some(cd) <==>
              exists elements :: b == Block(SUB, EncodeAll(elements)) && AllWellSized(elements)
                                 && AllWellSized(cd) && IsFirst(elements, CD, CdBlock(cd))
  {
    hide EncodeAll, ParseElements, Get, IsFirst, CdBlock, DecodeCd;
    forall elements
      ensures ParseElements(b.value) == Some(elements) <==> b.value == EncodeAll(elements) && AllWellSized(elements)
    {
      ParseElementsExact(b.value, elements);
    }
    forall elements, c ensures Get(elements, CD) == Some(c) <==> IsFirst(elements, CD, c) {
      GetIsFirst(elements, CD, c);
    }
    forall c ensures DecodeCd(c) == Some(cd) <==> c == CdBlock(cd) && AllWellSized(cd) {
      DecodeCdIff(c, cd);
    }
  }

  lemma DecodePubIff(typ: nat, b: Block, cd: Cd, content: Block)
    ensures DecodePub(typ, b) == Some((cd, content)) <==>
              exists elements :: b == Block(typ, EncodeAll(elements)) && AllWellSized(elements) && AllWellSized(cd)
                                 && IsFirst(elements, CD, CdBlock(cd)) && IsFirst(elements, CONTENT, content)
  {
    hide EncodeAll, ParseElements, Get, IsFirst, CdBlock, DecodeCd;
    forall elements
      ensures ParseElements(b.value) == Some(elements) <==> b.value == EncodeAll(elements) && AllWellSized(elements)
    {
      ParseElementsExact(b.value, elements);
    }
    forall elements, t, c ensures Get(elements, t) == Some(c) <==> IsFirst(elements, t, c) {
      GetIsFirst(elements, t, c);
    }
    forall c ensures DecodeCd(c) == Some(cd) <==> c == CdBlock(cd) && AllWellSized(cd) {
      DecodeCdIff(c, cd);
    }
  }

  // ---- Round trips

  lemma CdRoundTrip(cd: Cd)
    requires AllWellSized(cd)
    ensures DecodeCd(CdBlock(cd)) == Some(cd)
  {
    ParseElementsExact(EncodeAll(cd), cd);
  }

  /**
   * Decoding does not check the grammar: a lone optional decodes, and only descriptors read from URIs
   * are known to be grammatical.
   */
  lemma DecodedCanBeUngrammatical()
    ensures exists b :: DecodeCd(b).Some? && !Grammatical(DecodeCd(b).value)
  {
    var cd := [Optional([])];
    CdRoundTrip(cd);
    assert DecodeCd(CdBlock(cd)) == Some(cd);
  }

  /** Decoding an encoded subscription recovers its descriptor, whatever the descriptor is. */
  lemma SubRoundTrip(cd: Cd)
    requires CdFits(cd)
    ensures DecodeSub(SubBlock(cd)) == Some(cd)
  {
    hide EncodeBlock, ParseElements;
    var inner := CdBlock(cd);
    EncodeAllOne(inner);
    ParseElementsExact(EncodeBlock(inner), [inner]);
    CdRoundTrip(cd);
  }

  /** Decoding an encoded publication recovers its descriptor and its content. */
  lemma PubRoundTrip(typ: nat, cd: Cd, content: Block)
    requires PubFits(cd, content) && content.typ == CONTENT
    ensures DecodePub(typ, PubBlock(typ, cd, content)) == Some((cd, content))
  {
    hide EncodeBlock, ParseElements;
    var inner := CdBlock(cd);
    EncodeAllTwo(inner, content);
    ParseElementsExact(EncodeBlock(inner) + EncodeBlock(content), [inner, content]);
    assert [inner, content][1..] == [content] && Get([content], CONTENT) == Some(content);
    assert AllWellSized([inner, content]);
    CdRoundTrip(cd);
  }

  lemma EncodeAllOne(b: Block)
    ensures EncodeAll([b]) == EncodeBlock(b)
  {
    hide EncodeBlock;
    EncodeAllCons(b, []);
    assert [b] + [] == [b] && EncodeAll([]) == [] && EncodeBlock(b) + [] == EncodeBlock(b);
  }

  lemma EncodeAllTwo(a: Block, b: Block)
    ensures EncodeAll([a, b]) == EncodeBlock(a) + EncodeBlock(b)
  {
    hide EncodeBlock;
    EncodeAllCons(a, [b]);
    EncodeAllCons(b, []);
    assert [a] + [b] == [a, b] && [b] + [] == [b];
    assert EncodeAll([]) == [] && EncodeBlock(b) + [] == EncodeBlock(b);
  }

  // ---- How it is written: back to front, once to count and once to write

  /** The estimator only counts; the buffer also keeps the bytes. */
  class Encoder {
    const estimating: bool
    var bytes: seq<Byte>

    constructor (estimating: bool)
      ensures this.estimating == estimating && bytes == []
    {
      this.estimating := estimating;
      bytes := [];
    }

    /** What the encoder holds after `s` was put in front. */
    ghost function After(s: seq<Byte>, before: seq<Byte>): seq<Byte> {
      if estimating then before else s + before
    }

    method PrependByteArray(s: seq<Byte>) returns (n: nat)
      modifies this
      ensures n == |s| && bytes == After(s, old(bytes))
    {
      if !estimating {
        bytes := s + bytes;
      }
      n := |s|;
    }

    method PrependVarNumber(v: nat) returns (n: nat)
      modifies this
      ensures n == |EncodeVarNumber(v)| && bytes == After(EncodeVarNumber(v), old(bytes))
    {
      if !estimating {
        bytes := EncodeVarNumber(v) + bytes;
      }
      n := |EncodeVarNumber(v)|;
    }

    method PrependBlock(b: Block) returns (n: nat)
      modifies this
      ensures n == |EncodeBlock(b)| && bytes == After(EncodeBlock(b), old(bytes))
    {
      n := PrependByteArray(EncodeBlock(b));
    }

    lemma AfterBoth(s: seq<Byte>, t: seq<Byte>, before: seq<Byte>)
      ensures After(s, After(t, before)) == After(s + t, before)
    {
      ConcatAssociative(s, t, before);
    }

    /** Put the length and the type in front of a value just written, and return the whole size. */
    method PrependHeader(typ: nat, ghost value: seq<Byte>, size: nat, ghost before: seq<Byte>) returns (total: nat)
      requires size == |value| && bytes == After(value, before)
      modifies this
      ensures total == |EncodeBlock(Block(typ, value))| && bytes == After(EncodeBlock(Block(typ, value)), before)
    {
      hide EncodeVarNumber, Width;
      var l := PrependVarNumber(size);
      AfterBoth(EncodeVarNumber(size), value, before);
      var t := PrependVarNumber(typ);
      AfterBoth(EncodeVarNumber(typ), EncodeVarNumber(size) + value, before);
      ConcatAssociative(EncodeVarNumber(typ), EncodeVarNumber(size), value);
      total := size + l + t;
    }

    /** One element of a descriptor. */
    method EncodeElement(b: Block) returns (total: nat)
      modifies this
      ensures total == |EncodeBlock(b)| && bytes == After(EncodeBlock(b), old(bytes))
    {
      hide EncodeBlock;
      var n := 0;
      if 0 < |b.value| {
        n := PrependByteArray(b.value);
      }
      assert bytes == After(b.value, old(bytes)) by { assert [] + old(bytes) == old(bytes); }
      total := PrependHeader(b.typ, b.value, n, old(bytes));
    }

    /** The elements from the last to the first, then the header. */
    method EncodeCd(cd: Cd) returns (total: nat)
      modifies this
      ensures total == |EncodeBlock(CdBlock(cd))| && bytes == After(EncodeBlock(CdBlock(cd)), old(bytes))
    {
      hide EncodeBlock, EncodeAll;
      total := 0;
      EncodeAllNone();
      assert cd[|cd|..] == [] && [] + bytes == bytes;
      for i := |cd| downto 0
        invariant total == |EncodeAll(cd[i..])| && bytes == After(EncodeAll(cd[i..]), old(bytes))
      {
        ghost var done := EncodeAll(cd[i + 1..]);
        var n := EncodeElement(cd[i]);
        total := total + n;
        assert cd[i..] == [cd[i]] + cd[i + 1..];
        EncodeAllCons(cd[i], cd[i + 1..]);
        AfterBoth(EncodeBlock(cd[i]), done, old(bytes));
      }
      assert cd[0..] == cd;
      total := PrependHeader(CD, EncodeAll(cd), total, old(bytes));
    }

    method EncodeSub(cd: Cd) returns (total: nat)
      modifies this
      ensures total == |EncodeBlock(SubBlock(cd))| && bytes == After(EncodeBlock(SubBlock(cd)), old(bytes))
    {
      total := EncodeCd(cd);
      total := PrependHeader(SUB, EncodeBlock(CdBlock(cd)), total, old(bytes));
    }

    method EncodePub(typ: nat, cd: Cd, content: Block) returns (total: nat)
      modifies this
      ensures total == |EncodeBlock(PubBlock(typ, cd, content))|
      ensures bytes == After(EncodeBlock(PubBlock(typ, cd, content)), old(bytes))
    {
      hide EncodeBlock;
      var c := PrependBlock(content);
      var d := EncodeCd(cd);
      AfterBoth(EncodeBlock(CdBlock(cd)), EncodeBlock(content), old(bytes));
      total := PrependHeader(typ, EncodeBlock(CdBlock(cd)) + EncodeBlock(content), c + d, old(bytes));
    }
  }

  lemma EncodeAllNone()
    ensures EncodeAll([]) == []
  {
  }

  /**
   * Both passes over a subscription: the buffer is made of the size the estimator returns, the writing
   * pass fills exactly that size, and the block read from it is the subscription's.
   */
  method WriteSub(cd: Cd) returns (block: Block, estimatedSize: nat, written: nat)
    requires CdFits(cd)
    ensures block == SubBlock(cd) && estimatedSize == written == |EncodeBlock(block)|
  {
    hide EncodeBlock;
    var estimator := new Encoder(true);
    estimatedSize := estimator.EncodeSub(cd);
    var buffer := new Encoder(false);
    written := buffer.EncodeSub(cd);
    assert buffer.bytes == EncodeBlock(SubBlock(cd));
    ReadBlockExact(buffer.bytes, SubBlock(cd));
    block := ReadBlock(buffer.bytes).value.0;
  }

  method WritePub(typ: nat, cd: Cd, content: Block) returns (block: Block, estimatedSize: nat, written: nat)
    requires typ < TWO32 && PubFits(cd, content)
    ensures block == PubBlock(typ, cd, content) && estimatedSize == written == |EncodeBlock(block)|
  {
    hide EncodeBlock;
    var estimator := new Encoder(true);
    estimatedSize := estimator.EncodePub(typ, cd, content);
    var buffer := new Encoder(false);
    written := buffer.EncodePub(typ, cd, content);
    assert buffer.bytes == EncodeBlock(PubBlock(typ, cd, content));
    ReadBlockExact(buffer.bytes, PubBlock(typ, cd, content));
    block := ReadBlock(buffer.bytes).value.0;
  }

  // ---- Packets as faces see them

  datatype Packet =
    | Sub(cd: Cd)
    | PubToRp(cd: Cd, content: seq<Byte>)
    | PubFromRp(cd: Cd, content: seq<Byte>)

  ghost predicate PacketFits(p: Packet) {
    if p.Sub? then CdFits(p.cd) else PubFits(p.cd, Block(CONTENT, p.content))
  }

  function PacketBlock(p: Packet): Block {
    match p
    case Sub(cd) => SubBlock(cd)
    case PubToRp(cd, content) => PubBlock(PUB_TO_RP, cd, Block(CONTENT, content))
    case PubFromRp(cd, content) => PubBlock(PUB_FROM_RP, cd, Block(CONTENT, content))
  }

  /** `Face::onPacketReceived`: the packet by its type; undecodable and unknown blocks are dropped. */
  function DecodePacket(b: Block): Option<Packet> {
    if b.typ == SUB then
      var r := DecodeSub(b);
      if r.None? then None else Some(Sub(r.value))
    else if b.typ == PUB_TO_RP then
      var r := DecodePub(PUB_TO_RP, b);
      if r.None? then None else Some(PubToRp(r.value.0, r.value.1.value))
    else if b.typ == PUB_FROM_RP then
      var r := DecodePub(PUB_FROM_RP, b);
      if r.None? then None else Some(PubFromRp(r.value.0, r.value.1.value))
    else None
  }

  lemma PacketRoundTrip(p: Packet)
    requires PacketFits(p)
    ensures DecodePacket(PacketBlock(p)) == Some(p)
  {
    hide DecodeSub, DecodePub;
    match p
    case Sub(cd) => SubRoundTrip(cd);
    case PubToRp(cd, content) => PubRoundTrip(PUB_TO_RP, cd, Block(CONTENT, content));
    case PubFromRp(cd, content) => PubRoundTrip(PUB_FROM_RP, cd, Block(CONTENT, content));
  }

  /** The wire tells packets apart: type, descriptor and content. */
  lemma PacketBlockInjective(p: Packet, q: Packet)
    requires PacketFits(p) && PacketFits(q) && PacketBlock(p) == PacketBlock(q)
    ensures p == q
  {
    hide PacketBlock, DecodePacket;
    PacketRoundTrip(p);
    PacketRoundTrip(q);
  }
}
