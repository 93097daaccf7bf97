/** Subscriptions and publications as objects that cache their wire. */
module Packets {
  import opened Bytes
  import opened Tlv
  import opened Descriptors
  import opened Wire

  /** The nested descriptor is there and gets decoded. */
  predicate ReachesCd(typ: nat, w: Block) {
    var elements := ParseElements(w.value);
    elements.Some? && w.typ == typ && Get(elements.value, CD).Some?
  }

  /**
   * The descriptor of an object whose decoding threw: `before`, unless the nested block was reached. Its
   * own parser stores it before it parses it, so where that throws, the elements found so far are left.
   */
  function CdAfterThrow(typ: nat, w: Block, before: Cd, left: Cd): Cd {
    if !ReachesCd(typ, w) then before
    else
      var cd := DecodeCd(Get(ParseElements(w.value).value, CD).value);
      if cd.None? then left else cd.value
  }

  class Sub {
    var cd: Cd
    var wire: Option<Block>

    /** A cached wire decodes to the current descriptor. */
    ghost predicate Valid()
      reads this
    {
      wire.Some? ==> DecodeSub(wire.value) == Some(cd)
    }

    constructor (cd: Cd)
      ensures Valid() && this.cd == cd && wire == None
    {
      this.cd, wire := cd, None;
    }

    method WireEncode() returns (w: Block)
      requires Valid() && CdFits(cd)
      modifies this
      ensures Valid() && cd == old(cd) && wire == Some(w)
      ensures w == if old(wire).Some? then old(wire).value else SubBlock(cd)
    {
      if wire.Some? {
        return wire.value;
      }
      var block, _, _ := WriteSub(cd);
      SubRoundTrip(cd);
      var ok := WireDecode(block, []);
      w := wire.value;
    }

    /**
     * The wire is stored before it is checked, and the nested block before its elements are: `left` is what
     * the block parser leaves of elements when it throws.
     */
    method WireDecode(w: Block, left: Cd) returns (ok: bool)
      modifies this
      ensures wire == Some(w) && ok == DecodeSub(w).Some?
      ensures ok ==> Valid() && Some(cd) == DecodeSub(w)
      ensures !ok ==> !Valid() && cd == if ReachesCd(SUB, w) then left else old(cd)
    {
      wire := Some(w);
      var elements := ParseElements(w.value);
      if elements.None? || w.typ != SUB {
        return false;
      }
      var block := Get(elements.value, CD);
      if block.None? {
        return false;
      }
      var c := DecodeCd(block.value);
      if c.None? {
        cd := left;
        return false;
      }
      cd := c.value;
      return true;
    }

    method SetCd(cd: Cd)
      modifies this
      ensures Valid() && this.cd == cd && wire == None
    {
      wire := None;
      this.cd := cd;
    }

    /**
     * Equality encodes both sides and compares the wires. With one descriptor the result is yes exactly if
     * neither wire has anything beside the descriptor, or both are the same.
     */
    method Equals(other: Sub) returns (r: bool)
      requires Valid() && other.Valid() && CdFits(cd) && CdFits(other.cd)
      modifies this, other
      ensures Valid() && other.Valid() && cd == old(cd) && other.cd == old(other.cd)
      ensures r <==> cd == other.cd && ((Plain(old(wire)) && Plain(old(other.wire))) || old(wire) == old(other.wire))
    {
      PlainIff(wire, cd);
      PlainIff(other.wire, other.cd);
      SubRoundTrip(cd);
      SubRoundTrip(other.cd);
      hide SubBlock, DecodeSub, Plain;
      var a := WireEncode();
      var b := other.WireEncode();
      r := a == b;
    }
  }

  /** No wire is cached, or one whose only element is the descriptor. */
  predicate Plain(wire: Option<Block>) {
    wire.Some? ==> ParseElements(wire.value.value).Some? && |ParseElements(wire.value.value).value| == 1
  }

  /** The wire a subscription is compared by. */
  function WireOf(wire: Option<Block>, cd: Cd): Block { if wire.Some? then wire.value else SubBlock(cd) }

  /** A subscription is compared by the fresh wire of its descriptor exactly if its wire is plain. */
  lemma PlainIff(wire: Option<Block>, cd: Cd)
    requires CdFits(cd) && (wire.Some? ==> DecodeSub(wire.value) == Some(cd))
    ensures Plain(wire) <==> WireOf(wire, cd) == SubBlock(cd)
  {
    if wire.Some? {
      SubRoundTrip(cd);
      var inner := CdBlock(cd);
      assert [inner][1..] == [];
      hide EncodeBlock, EncodeAll;
      EncodeAllOne(inner);
      CdRoundTrip(cd);
      ParseElementsExact(SubBlock(cd).value, [inner]);
      if Plain(wire) {
        var elements := ParseElements(wire.value.value).value;
        var b := elements[0];
        GetHasType(elements, CD);
        assert elements == [b] && b == Get(elements, CD).value;
        ParseElementsExact(b.value, cd);
        ParseElementsExact(wire.value.value, elements);
      }
    }
  }

  /**
   * A subscription compares by descriptor with every freshly made one exactly if its wire is absent or has
   * the descriptor as its only element.
   */
  lemma ComparesByDescriptorIff(wire: Option<Block>, cd: Cd)
    requires CdFits(cd) && (wire.Some? ==> DecodeSub(wire.value) == Some(cd))
    ensures (forall d :: CdFits(d) ==> (WireOf(wire, cd) == SubBlock(d) <==> cd == d)) <==> Plain(wire)
  {
    PlainIff(wire, cd);
    hide SubBlock, DecodeSub, Plain, CdFits;
    SubRoundTrip(cd);
    forall d | CdFits(d) ensures SubBlock(cd) == SubBlock(d) <==> cd == d { SubRoundTrip(d); }
  }

  /** A subscription whose nested descriptor ends after a type byte: decoding it loses the old descriptor. */
  lemma ThrowCanLoseDescriptor()
    ensures var w := Block(SUB, [CD, 1, CD_COMPONENT]);
            ReachesCd(SUB, w) && DecodeSub(w) == None
  {
    var inner, w := Block(CD, [CD_COMPONENT]), Block(SUB, [CD, 1, CD_COMPONENT]);
    assert EncodeBlock(inner) == [CD, 1, CD_COMPONENT];
    assert [inner][1..] == [];
    EncodeAllNone();
    assert EncodeAll([inner]) == w.value;
    ParseElementsExact(w.value, [inner]);
    assert ParseElements(inner.value).None?;
  }

  /** Two wires with the same descriptor can differ, so decoded subscriptions with one descriptor can be unequal. */
  lemma DecodedSubsCanDiffer()
    ensures exists v, w :: v != w && DecodeSub(v) == DecodeSub(w) == Some([])
  {
    var inner := CdBlock([]);
    EncodeAllNone();
    assert EncodeBlock(inner) == [CD, 0];
    hide EncodeBlock, ParseElements;
    var v, w := SubBlock([]), Block(SUB, EncodeBlock(inner) + EncodeBlock(inner));
    SubRoundTrip([]);
    EncodeAllTwo(inner, inner);
    ParseElementsExact(w.value, [inner, inner]);
    CdRoundTrip([]);
    assert |v.value| == 2 && |w.value| == 4;
    assert DecodeSub(v) == DecodeSub(w) == Some([]);
  }

  /** A publication to (`PUB_TO_RP`) or from (`PUB_FROM_RP`) the rendezvous point. */
  class Pub {
    const typ: nat
    var cd: Cd
    var content: Block
    var wire: Option<Block>

    /** A cached wire decodes to the current descriptor and content. */
    ghost predicate Valid()
      reads this
    {
      && content.typ == CONTENT
      && (wire.Some? ==> DecodePub(typ, wire.value) == Some((cd, content)))
    }

    constructor (typ: nat, cd: Cd)
      ensures Valid() && this.typ == typ && this.cd == cd && content == Block(CONTENT, []) && wire == None
    {
      this.typ, this.cd := typ, cd;
      content, wire := Block(CONTENT, []), None;
    }

    /** What the rendezvous point sends for a publication it received. */
    constructor FromPubToRp(pub: Pub)
      requires pub.Valid()
      ensures Valid() && typ == PUB_FROM_RP && cd == pub.cd && content == pub.content && wire == None
    {
      typ, cd := PUB_FROM_RP, pub.cd;
      content, wire := Block(CONTENT, []), None;
      new;
      SetContent(pub.content);
    }

    method SetCd(cd: Cd)
      requires content.typ == CONTENT
      modifies this
      ensures Valid() && this.cd == cd && content == old(content) && wire == None
    {
      wire := None;
      this.cd := cd;
    }

    method SetContentBytes(buffer: seq<Byte>)
      modifies this
      ensures Valid() && content == Block(CONTENT, buffer) && cd == old(cd) && wire == None
    {
      wire := None;
      content := Block(CONTENT, buffer);
    }

    /** A content block is taken as it is; any other block is nested in one. */
    method SetContent(block: Block)
      modifies this
      ensures Valid() && cd == old(cd) && wire == None
      ensures content == if block.typ == CONTENT then block else Block(CONTENT, EncodeBlock(block))
    {
      wire := None;
      if block.typ == CONTENT {
        content := block;
      } else {
        content := Block(CONTENT, EncodeBlock(block));
      }
    }

    method WireEncode() returns (w: Block)
      requires Valid() && typ < TWO32 && PubFits(cd, content)
      modifies this
      ensures Valid() && cd == old(cd) && content == old(content) && wire == Some(w)
      ensures w == if old(wire).Some? then old(wire).value else PubBlock(typ, cd, content)
    {
      if wire.Some? {
        return wire.value;
      }
      var block, _, _ := WritePub(typ, cd, content);
      PubRoundTrip(typ, cd, content);
      var ok := WireDecode(block, []);
      w := wire.value;
    }

    /** As for subscriptions; a missing content throws after the descriptor was replaced by the decoded one. */
    method WireDecode(w: Block, left: Cd) returns (ok: bool)
      modifies this
      ensures wire == Some(w) && ok == DecodePub(typ, w).Some?
      ensures ok ==> Valid() && Some((cd, content)) == DecodePub(typ, w)
      ensures !ok ==> content == old(content) && cd == CdAfterThrow(typ, w, old(cd), left)
      ensures !ok && content.typ == CONTENT ==> !Valid()
    {
      wire := Some(w);
      var elements := ParseElements(w.value);
      if elements.None? || w.typ != typ {
        return false;
      }
      var block := Get(elements.value, CD);
      if block.None? {
        return false;
      }
      var c := DecodeCd(block.value);
      if c.None? {
        cd := left;
        return false;
      }
      cd := c.value;
      var content' := Get(elements.value, CONTENT);
      if content'.None? {
        return false;
      }
      GetHasType(elements.value, CONTENT);
      content := content'.value;
      return true;
    }

    method Equals(other: Pub) returns (r: bool)
      ensures r <==> cd == other.cd && content == other.content
    {
      r := Descriptors.Equals(cd, other.cd);
      r := r && content == other.content;
    }
  }

  lemma {:induction false} GetHasType(elements: seq<Block>, typ: nat)
    requires Get(elements, typ).Some?
    ensures Get(elements, typ).value.typ == typ && Get(elements, typ).value in elements
  {
    if elements[0].typ != typ { GetHasType(elements[1..], typ); }
  }

  /** Freshly encoded publications are equal on the wire exactly when descriptor and content are. */
  lemma FreshPubWires(typ: nat, c: Cd, x: Block, d: Cd, y: Block)
    requires PubFits(c, x) && PubFits(d, y) && x.typ == y.typ == CONTENT
    ensures PubBlock(typ, c, x) == PubBlock(typ, d, y) <==> c == d && x == y
  {
    hide PubBlock, DecodePub;
    PubRoundTrip(typ, c, x);
    PubRoundTrip(typ, d, y);
  }
}
