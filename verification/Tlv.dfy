/**
 * TLV blocks: type, length, value, with both numbers in the shortest form of section
 * "Variable Size Encoding for TLV-TYPE and TLV-LENGTH" of the NDN Packet Format Specification.
 */
module Tlv {
  import opened Bytes

  datatype Block = Block(typ: nat, value: seq<Byte>)

  const SUB := 65
  const PUB_TO_RP := 66
  const PUB_FROM_RP := 67
  const CD := 70
  const CD_COMPONENT := 8
  const CD_OPTIONAL := 81
  const CD_ASTERISK := 82
  const CONTENT := 21

  const TWO32: nat := 0x1_0000_0000
  const TWO64: nat := 0x1_0000_0000_0000_0000

  /** How many bytes follow the first one. */
  function Width(n: nat): (k: nat) {
    if n < 253 then 0 else if n < 0x1_0000 then 2 else if n < TWO32 then 4 else 8
  }

  function Marker(k: nat): Byte { if k == 2 then 253 else if k == 4 then 254 else 255 }

  function EncodeVarNumber(n: nat): (s: seq<Byte>)
    ensures |s| == 1 + Width(n)
  {
    if n < 253 then [n] else [Marker(Width(n))] + BigEndian(n, Width(n))
  }

  /** The number at the front of `s` and the bytes it takes, unless it is incomplete or not shortest. */
  function ReadVarNumber(s: seq<Byte>): (r: Option<(nat, nat)>)
    ensures r.Some? ==> 0 < r.value.1 <= |s|
  {
    if s == [] then None
    else if s[0] < 253 then Some((s[0], 1))
    else
      var k := if s[0] == 253 then 2 else if s[0] == 254 then 4 else 8;
      if |s| < 1 + k then None
      else
        var n := FromBigEndian(s[1..1 + k]);
        if Width(n) == k then Some((n, 1 + k)) else None
  }

  lemma Powers()
    ensures Pow256(2) == 0x1_0000 && Pow256(4) == TWO32 && Pow256(8) == TWO64
  {
    assert Pow256(2) == 256 * Pow256(1);
    assert Pow256(4) == 0x1_0000 * Pow256(2);
    assert Pow256(8) == 0x1_0000_0000 * Pow256(4);
  }

  /** The reader accepts every encoding of a 64-bit number. */
  lemma VarNumberIsRead(s: seq<Byte>, n: nat)
    requires n < TWO64 && EncodeVarNumber(n) <= s
    ensures ReadVarNumber(s) == Some((n, |EncodeVarNumber(n)|))
  {
    hide BigEndian, FromBigEndian, Pow256;
    if 253 <= n {
      Powers();
      BigEndianRoundTrip(n, Width(n));
      assert s[0] == EncodeVarNumber(n)[0];
      assert s[1..1 + Width(n)] == EncodeVarNumber(n)[1..] == BigEndian(n, Width(n));
    } else {
      assert s[0] == EncodeVarNumber(n)[0];
    }
  }

  /** The reader accepts nothing else. */
  lemma ReadIsVarNumber(s: seq<Byte>)
    requires ReadVarNumber(s).Some?
    ensures var (n, k) := ReadVarNumber(s).value;
            n < TWO64 && EncodeVarNumber(n) <= s && k == |EncodeVarNumber(n)|
  {
    hide BigEndian, FromBigEndian, Pow256;
    var (n, k) := ReadVarNumber(s).value;
    if 253 <= s[0] {
      Powers();
      FromBigEndianRoundTrip(s[1..k]);
      assert EncodeVarNumber(n) == [s[0]] + s[1..k] == s[..k];
    } else {
      assert EncodeVarNumber(n) == [s[0]] == s[..1];
    }
  }

  // ---- The forms of a number, byte by byte

  /** What is written: one byte below 253, then two, four and eight bytes behind 253, 254 and 255. */
  lemma WrittenForms(n: nat)
    ensures n < 253 ==> EncodeVarNumber(n) == [n]
    ensures 253 <= n < 0x1_0000 ==> EncodeVarNumber(n) == [253, n / 0x100, n % 0x100]
    ensures 0x1_0000 <= n < 0x1_0000_0000 ==>
              EncodeVarNumber(n) == [254, n / 0x100_0000, n / 0x1_0000 % 0x100, n / 0x100 % 0x100, n % 0x100]
    ensures 0x1_0000_0000 <= n < 0x1_0000_0000_0000_0000 ==> |EncodeVarNumber(n)| == 9 && EncodeVarNumber(n)[0] == 255
  {
    if n < 0x1_0000 {
      BigEndianTwo(n);
    } else if n < 0x1_0000_0000 {
      BigEndianTwo(n);
      BigEndianTwo(n / 0x1_0000);
      BigEndianFour(n);
    }
  }

  lemma BigEndianTwo(n: nat)
    ensures BigEndian(n, 2) == [n / 0x100 % 0x100, n % 0x100]
  {
    assert BigEndian(n / 0x100, 1) == BigEndian(n / 0x100 / 0x100, 0) + [n / 0x100 % 0x100];
  }

  lemma BigEndianFour(n: nat)
    ensures BigEndian(n, 4) == BigEndian(n / 0x1_0000, 2) + BigEndian(n, 2)
  {
    var a, b := n / 0x100, n / 0x100 / 0x100;
    assert b == n / 0x1_0000;
    assert BigEndian(n, 4) == BigEndian(a, 3) + [n % 0x100] && BigEndian(a, 3) == BigEndian(b, 2) + [a % 0x100];
    BigEndianTwo(n);
    assert BigEndian(n, 2) == [a % 0x100, n % 0x100];
  }

  /** What is read: each form gives its number if no shorter form could, and its size. */
  lemma ReadForms(a: Byte, b: Byte, c: Byte, d: Byte, s: seq<Byte>)
    ensures a < 253 ==> ReadVarNumber([a] + s) == Some((a, 1))
    ensures var n := 0x100 * a + b;
            ReadVarNumber([253, a, b] + s) == if 253 <= n then Some((n, 3)) else None
    ensures var n := 0x100_0000 * a + 0x1_0000 * b + 0x100 * c + d;
            ReadVarNumber([254, a, b, c, d] + s) == if 0x1_0000 <= n then Some((n, 5)) else None
  {
    FromTwo(a, b);
    FromTwo(c, d);
    FromFour(a, b, c, d);
    hide FromBigEndian;
    assert ([253, a, b] + s)[1..3] == [a, b];
    assert ([254, a, b, c, d] + s)[1..5] == [a, b, c, d];
  }

  lemma FromTwo(a: Byte, b: Byte)
    ensures FromBigEndian([a, b]) == 0x100 * a + b
  {
    FromSnoc([], a);
    FromSnoc([a], b);
    assert [] + [a] == [a] && [a] + [b] == [a, b];
  }

  lemma FromSnoc(s: seq<Byte>, x: Byte)
    ensures FromBigEndian([]) == 0 && FromBigEndian(s + [x]) == 0x100 * FromBigEndian(s) + x
  {
    assert (s + [x])[..|s|] == s;
  }

  lemma FromFour(a: Byte, b: Byte, c: Byte, d: Byte)
    ensures FromBigEndian([a, b, c, d]) == 0x1_0000 * FromBigEndian([a, b]) + FromBigEndian([c, d])
  {
    FromTwo(a, b);
    FromTwo(c, d);
    assert [a, b, c, d][..3] == [a, b, c] && [a, b, c][..2] == [a, b];
  }

  /** The longest form, and numbers that are cut short. */
  lemma ReadLongForm(hi: seq<Byte>, lo: seq<Byte>, s: seq<Byte>)
    requires |hi| == 4 && |lo| == 4
    ensures var n := 0x1_0000_0000 * FromBigEndian(hi) + FromBigEndian(lo);
            ReadVarNumber([255] + hi + lo + s) == if 0x1_0000_0000 <= n then Some((n, 9)) else None
  {
    FromEight(hi, lo);
    hide FromBigEndian;
    assert ([255] + hi + lo + s)[1..9] == hi + lo;
  }

  lemma FromEight(hi: seq<Byte>, lo: seq<Byte>)
    requires |hi| == 4 && |lo| == 4
    ensures FromBigEndian(hi + lo) == 0x1_0000_0000 * FromBigEndian(hi) + FromBigEndian(lo)
  {
    hide FromBigEndian;
    FromSnoc([], lo[0]);
    FromSnoc(lo[..1], lo[1]);
    FromSnoc(lo[..2], lo[2]);
    FromSnoc(lo[..3], lo[3]);
    assert [] + [lo[0]] == lo[..1] && lo[..1] + [lo[1]] == lo[..2];
    assert lo[..2] + [lo[2]] == lo[..3] && lo[..3] + [lo[3]] == lo;
    FromSnoc(hi, lo[0]);
    FromSnoc(hi + lo[..1], lo[1]);
    FromSnoc(hi + lo[..2], lo[2]);
    FromSnoc(hi + lo[..3], lo[3]);
    assert hi + [lo[0]] == hi + lo[..1] && hi + lo[..1] + [lo[1]] == hi + lo[..2];
    assert hi + lo[..2] + [lo[2]] == hi + lo[..3] && hi + lo[..3] + [lo[3]] == hi + lo;
  }

  lemma ReadsNothing(s: seq<Byte>)
    ensures s == [] || (s[0] == 253 && |s| < 3) || (s[0] == 254 && |s| < 5) || (s[0] == 255 && |s| < 9) ==>
              ReadVarNumber(s) == None
  {
  }

  function EncodeBlock(b: Block): (s: seq<Byte>)
    ensures 1 < |s| && |b.value| < |s|
  {
    EncodeVarNumber(b.typ) + EncodeVarNumber(|b.value|) + b.value
  }

  /** A block on the wire: its type, its length in one byte or three, its value. */
  lemma BlockForms(b: Block)
    requires b.typ < 253
    ensures |b.value| < 253 ==> EncodeBlock(b) == [b.typ, |b.value|] + b.value
    ensures 253 <= |b.value| < 0x1_0000 ==>
              EncodeBlock(b) == [b.typ, 253, |b.value| / 0x100, |b.value| % 0x100] + b.value
  {
    WrittenForms(b.typ);
    WrittenForms(|b.value|);
    hide EncodeVarNumber, Width;
    var n := |b.value|;
    if n < 253 { assert [b.typ] + [n] == [b.typ, n]; }
    if 253 <= n < 0x1_0000 { assert [b.typ] + [253, n / 0x100, n % 0x100] == [b.typ, 253, n / 0x100, n % 0x100]; }
  }

  /** The type fits 32 bits and the length 64 bits. */
  predicate WellSized(b: Block) { b.typ < TWO32 && |b.value| < TWO64 }

  /** `Block::fromBuffer`: the first complete TLV at the front of `s` and its size, or nothing. */
  function ReadBlock(s: seq<Byte>): (r: Option<(Block, nat)>)
    ensures r.Some? ==> 0 < r.value.1 <= |s|
  {
    var t := ReadVarNumber(s);
    if t.None? || t.value.0 >= TWO32 then None
    else
      var l := ReadVarNumber(s[t.value.1..]);
      if l.None? then None
      else
        var header := t.value.1 + l.value.1;
        if l.value.0 > |s| - header then None
        else Some((Block(t.value.0, s[header..header + l.value.0]), header + l.value.0))
  }

  /** `b` is what `fromBuffer` finds exactly when the bytes begin with the encoding of `b`. */
  lemma ReadBlockExact(s: seq<Byte>, b: Block)
    ensures WellSized(b) && EncodeBlock(b) <= s <==> ReadBlock(s).Some? && ReadBlock(s).value.0 == b
    ensures ReadBlock(s).Some? && ReadBlock(s).value.0 == b ==> ReadBlock(s).value.1 == |EncodeBlock(b)|
  {
    if WellSized(b) && EncodeBlock(b) <= s { EncodedIsRead(s, b); }
    if ReadBlock(s).Some? && ReadBlock(s).value.0 == b { ReadIsEncoded(s); }
  }

  lemma EncodedIsRead(s: seq<Byte>, b: Block)
    requires WellSized(b) && EncodeBlock(b) <= s
    ensures ReadBlock(s) == Some((b, |EncodeBlock(b)|))
  {
    hide EncodeVarNumber, ReadVarNumber, Width;
    var et, el := EncodeVarNumber(b.typ), EncodeVarNumber(|b.value|);
    var tail := s[|EncodeBlock(b)|..];
    assert s == EncodeBlock(b) + tail;
    assert s == et + (el + b.value + tail);
    VarNumberIsRead(s, b.typ);
    assert s[|et|..] == el + (b.value + tail);
    VarNumberIsRead(s[|et|..], |b.value|);
    assert s[|et| + |el|..|et| + |el| + |b.value|] == b.value;
  }

  lemma ReadIsEncoded(s: seq<Byte>)
    requires ReadBlock(s).Some?
    ensures var (b, k) := ReadBlock(s).value;
            WellSized(b) && EncodeBlock(b) <= s && k == |EncodeBlock(b)|
  {
    hide EncodeVarNumber, ReadVarNumber, Width, BigEndian, FromBigEndian, Pow256;
    var (b, k) := ReadBlock(s).value;
    var (typ, n) := ReadVarNumber(s).value;
    ReadIsVarNumber(s);
    ReadIsVarNumber(s[n..]);
    PiecesInFront(s, EncodeVarNumber(typ), EncodeVarNumber(|b.value|), |b.value|);
  }

  /** Two strings at the front of `s`, one behind the other, and `n` more bytes. */
  lemma PiecesInFront(s: seq<Byte>, a: seq<Byte>, b: seq<Byte>, n: nat)
    requires a <= s && b <= s[|a|..] && |a| + |b| + n <= |s|
    ensures a + b + s[|a| + |b|..|a| + |b| + n] <= s
  {
    var front, rest := s[..|a|], s[|a|..];
    assert a == front && b == rest[..|b|];
    assert a + b == s[..|a| + |b|];
  }

  /** A complete TLV stays the first one whatever bytes follow it. */
  lemma ReadBlockStable(s: seq<Byte>, t: seq<Byte>)
    requires ReadBlock(s).Some?
    ensures ReadBlock(s + t) == ReadBlock(s)
  {
    var b := ReadBlock(s).value.0;
    ReadBlockExact(s, b);
    ReadBlockExact(s + t, b);
  }

  function EncodeAll(bs: seq<Block>): seq<Byte> {
    if bs == [] then [] else EncodeBlock(bs[0]) + EncodeAll(bs[1..])
  }

  datatype Cut = Cut(blocks: seq<Block>, rest: seq<Byte>)

  /** Take complete TLVs off the front until none is left. */
  function CutBlocks(s: seq<Byte>): (c: Cut)
    decreases |s|
  {
    match ReadBlock(s)
    case None => Cut([], s)
    case Some((b, k)) =>
      var c := CutBlocks(s[k..]);
      Cut([b] + c.blocks, c.rest)
  }

  ghost predicate AllWellSized(bs: seq<Block>) { forall b :: b in bs ==> WellSized(b) }

  /** `s` is the encodings of `c.blocks` followed by bytes that do not begin with any encoding. */
  ghost predicate IsCut(s: seq<Byte>, c: Cut) {
    && s == EncodeAll(c.blocks) + c.rest
    && AllWellSized(c.blocks)
    && forall b :: WellSized(b) ==> !(EncodeBlock(b) <= c.rest)
  }

  /** The greedy loop finds the one decomposition there is. */
  lemma CutBlocksExact(s: seq<Byte>, c: Cut)
    ensures IsCut(s, c) <==> CutBlocks(s) == c
  {
    CutBlocksIsCut(s);
    if IsCut(s, c) { CutIsUnique(s, c, CutBlocks(s)); }
  }

  lemma {:induction false} CutBlocksIsCut(s: seq<Byte>)
    ensures IsCut(s, CutBlocks(s))
    decreases |s|
  {
    hide EncodeBlock, ReadBlock;
    if ReadBlock(s).None? {
      forall b ensures WellSized(b) ==> !(EncodeBlock(b) <= s) { ReadBlockExact(s, b); }
    } else {
      var (b, k) := ReadBlock(s).value;
      ReadBlockExact(s, b);
      CutBlocksIsCut(s[k..]);
      PrependToCut(s, b, CutBlocks(s[k..]));
    }
  }

  lemma PrependToCut(s: seq<Byte>, b: Block, c: Cut)
    requires WellSized(b) && EncodeBlock(b) <= s && IsCut(s[|EncodeBlock(b)|..], c)
    ensures IsCut(s, Cut([b] + c.blocks, c.rest))
  {
    hide EncodeBlock;
    assert s == EncodeBlock(b) + s[|EncodeBlock(b)|..];
    assert ([b] + c.blocks)[1..] == c.blocks;
    assert EncodeAll([b] + c.blocks) + c.rest == EncodeBlock(b) + (EncodeAll(c.blocks) + c.rest);
  }

  lemma {:induction false} CutIsUnique(s: seq<Byte>, c: Cut, d: Cut)
    requires IsCut(s, c) && IsCut(s, d)
    ensures c == d
    decreases |c.blocks|
  {
    hide EncodeBlock, ReadBlock;
    if c.blocks == [] {
      assert s == c.rest;
      if d.blocks == [] {
        assert s == d.rest;
      } else {
        var _ := CutStartsWith(s, d);
        assert false;
      }
    } else {
      var b := CutStartsWith(s, c);
      if d.blocks == [] {
        assert false;
      } else {
        var b' := CutStartsWith(s, d);
        ReadBlockExact(s, b);
        ReadBlockExact(s, b');
        CutIsUnique(s[|EncodeBlock(b)|..], Cut(c.blocks[1..], c.rest), Cut(d.blocks[1..], d.rest));
        assert c.blocks == [b] + c.blocks[1..] && d.blocks == [b] + d.blocks[1..];
      }
    }
  }

  lemma CutStartsWith(s: seq<Byte>, c: Cut) returns (b: Block)
    requires IsCut(s, c) && c.blocks != []
    ensures b == c.blocks[0] && WellSized(b) && EncodeBlock(b) <= s
    ensures IsCut(s[|EncodeBlock(b)|..], Cut(c.blocks[1..], c.rest))
  {
    hide EncodeBlock;
    b := c.blocks[0];
    assert b in c.blocks;
    assert s == EncodeBlock(b) + (EncodeAll(c.blocks[1..]) + c.rest);
  }

  /** Later bytes never change what was cut already: cutting resumes from the remainder. */
  lemma {:induction false} CutBlocksAppend(s: seq<Byte>, t: seq<Byte>)
    ensures CutBlocks(s + t) == Resume(CutBlocks(s), t)
    decreases |s|
  {
    hide ReadBlock;
    if ReadBlock(s).None? {
      assert [] + CutBlocks(s + t).blocks == CutBlocks(s + t).blocks;
    } else {
      var (b, k) := ReadBlock(s).value;
      ReadBlockStable(s, t);
      CutBlocksAppend(s[k..], t);
      assert (s + t)[k..] == s[k..] + t;
      var c := CutBlocks(s[k..]);
      PrependResumed(b, c, t);
    }
  }

  /** Cut `t` behind the remainder of an earlier cut. */
  function Resume(c: Cut, t: seq<Byte>): Cut { Ahead(c.blocks, CutBlocks(c.rest + t)) }

  lemma PrependResumed(b: Block, c: Cut, t: seq<Byte>)
    ensures Resume(Cut([b] + c.blocks, c.rest), t) == Cut([b] + Resume(c, t).blocks, Resume(c, t).rest)
  {
    hide CutBlocks;
    var d := CutBlocks(c.rest + t);
    assert [b] + (c.blocks + d.blocks) == ([b] + c.blocks) + d.blocks;
  }

  /** The whole cut, when `done` was cut before `c`. */
  function Ahead(done: seq<Block>, c: Cut): Cut { Cut(done + c.blocks, c.rest) }

  lemma AheadStep(done: seq<Block>, b: Block, c: Cut)
    ensures Ahead(done, Cut([b] + c.blocks, c.rest)) == Ahead(done + [b], c)
  {
    assert done + ([b] + c.blocks) == (done + [b]) + c.blocks;
  }

  lemma NothingInNoBytes()
    ensures CutBlocks([]) == Cut([], [])
  {
  }

  lemma EncodeAllCons(b: Block, bs: seq<Block>)
    ensures EncodeAll([b] + bs) == EncodeBlock(b) + EncodeAll(bs)
  {
    assert ([b] + bs)[1..] == bs;
  }

  lemma {:induction false} EncodeAllConcat(a: seq<Block>, b: seq<Block>)
    ensures EncodeAll(a + b) == EncodeAll(a) + EncodeAll(b)
  {
    if a == [] {
      assert a + b == b;
    } else {
      hide EncodeBlock, EncodeAll;
      EncodeAllConcat(a[1..], b);
      assert a == [a[0]] + a[1..] && a + b == [a[0]] + (a[1..] + b);
      EncodeAllCons(a[0], a[1..]);
      EncodeAllCons(a[0], a[1..] + b);
      ConcatAssociative(EncodeBlock(a[0]), EncodeAll(a[1..]), EncodeAll(b));
    }
  }

  /** `Block::parse`: the value as a list of blocks, or an error when bytes are left over. */
  function ParseElements(value: seq<Byte>): Option<seq<Block>> {
    var c := CutBlocks(value);
    if c.rest == [] then Some(c.blocks) else None
  }

  /** Parsing elements is the inverse of writing them. */
  lemma ParseElementsExact(value: seq<Byte>, bs: seq<Block>)
    ensures ParseElements(value) == Some(bs) <==> value == EncodeAll(bs) && AllWellSized(bs)
  {
    CutBlocksExact(value, Cut(bs, []));
    assert EncodeAll(bs) + [] == EncodeAll(bs);
  }
}
