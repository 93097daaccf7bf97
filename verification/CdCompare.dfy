/**
 * Comparing descriptors. Two elements that both carry wire bytes are compared by `memcmp` over those
 * bytes; otherwise by type, then length, then value. The two ways agree, and comparison is one order,
 * except where a difference of types or lengths does not keep its sign in an `int`.
 */
module CdCompare {
  import opened Bytes
  import opened Tlv
  import opened Descriptors

  const TWO31: int := 0x8000_0000
  const FOUR_GIB: int := 0x1_0000_0000

  /** An element as the program holds it: its wire, when present, is its shortest-form encoding. */
  datatype Element = Element(block: Block, hasWire: bool)

  function Blocks(es: seq<Element>): (cd: Cd)
    ensures |cd| == |es| && forall i :: 0 <= i < |es| ==> cd[i] == es[i].block
  {
    seq(|es|, i requires 0 <= i < |es| => es[i].block)
  }

  /** What a 64-bit difference becomes when it is returned as an `int`. */
  function ToInt32(x: int): int {
    var m := x % TWO32;
    if m < TWO31 then m else m - TWO32
  }

  /** `Cd::compare` on two elements. */
  function CompareElements(a: Element, b: Element): int {
    if a.hasWire && b.hasWire then MemCmp(EncodeBlock(a.block), EncodeBlock(b.block))
    else
      var cmpType := ToInt32(a.block.typ - b.block.typ);
      if cmpType != 0 then cmpType
      else
        var cmpSize := ToInt32(|a.block.value| - |b.block.value|);
        if cmpSize != 0 then cmpSize else MemCmp(a.block.value, b.block.value)
  }

  /** The canonical order of NDN names: type, then length, then bytes. */
  function Canonical(a: Block, b: Block): (r: int) {
    if a.typ != b.typ then Sign(a.typ - b.typ)
    else if |a.value| != |b.value| then Sign(|a.value| - |b.value|)
    else MemCmp(a.value, b.value)
  }

  /** Shortest-form numbers are ordered as strings, and no encoding begins another. */
  lemma VarNumberOrder(m: nat, n: nat, s: seq<Byte>, t: seq<Byte>)
    requires m < n < TWO64
    ensures MemCmp(EncodeVarNumber(m) + s, EncodeVarNumber(n) + t) == -1
  {
    hide BigEndian, Pow256;
    var a, b := EncodeVarNumber(m), EncodeVarNumber(n);
    if 253 <= m && Width(m) == Width(n) {
      Powers();
      BigEndianOrder(m, n, Width(m));
      assert a[1..] == BigEndian(m, Width(m)) && b[1..] == BigEndian(n, Width(m));
    }
    assert MemCmp(a, b) == -1;
    MemCmpDecided(a, b, s, t);
  }

  /** Comparing whole encodings gives the canonical order. */
  lemma FastPathIsCanonical(a: Block, b: Block)
    requires WellSized(a) && WellSized(b)
    ensures MemCmp(EncodeBlock(a), EncodeBlock(b)) == Canonical(a, b)
  {
    hide EncodeVarNumber, Width;
    var ta, la := EncodeVarNumber(a.typ), EncodeVarNumber(|a.value|);
    var tb, lb := EncodeVarNumber(b.typ), EncodeVarNumber(|b.value|);
    ConcatAssociative(ta, la, a.value);
    ConcatAssociative(tb, lb, b.value);
    var x, y := la + a.value, lb + b.value;
    MemCmpFlip(ta + x, tb + y);
    if a.typ < b.typ {
      VarNumberOrder(a.typ, b.typ, x, y);
    } else if b.typ < a.typ {
      VarNumberOrder(b.typ, a.typ, y, x);
    } else {
      MemCmpSkip(ta, x, y);
      MemCmpFlip(x, y);
      if |a.value| < |b.value| {
        VarNumberOrder(|a.value|, |b.value|, a.value, b.value);
      } else if |b.value| < |a.value| {
        VarNumberOrder(|b.value|, |a.value|, b.value, a.value);
      } else {
        MemCmpSkip(la, a.value, b.value);
      }
    }
  }

  predicate BothWired(a: Element, b: Element) { a.hasWire && b.hasWire }

  /**
   * When comparing without wire bytes is right. Types may not differ by 2^31 or more. Lengths must differ
   * such that the low 32 bits of the difference, as an `int`, keep its sign; where those bits are all zero
   * although the lengths differ, the values' bytes decide instead.
   */
  predicate SlowPathRight(a: Block, b: Block) {
    var d := |a.value| - |b.value|;
    if a.typ != b.typ then -TWO31 <= a.typ - b.typ < TWO31
    else if d % TWO32 == 0 then MemCmp(a.value, b.value) == Sign(d) || d == 0
    else 0 < d <==> d % TWO32 < TWO31
  }

  predicate Comparable(a: Element, b: Element) { BothWired(a, b) || SlowPathRight(a.block, b.block) }

  /** The sign of a comparison is the canonical one exactly when both carry their wire or the slow path is right. */
  lemma CompareIsCanonicalIff(a: Element, b: Element)
    requires WellSized(a.block) && WellSized(b.block)
    ensures Sign(CompareElements(a, b)) == Canonical(a.block, b.block) <==> Comparable(a, b)
  {
    hide EncodeBlock;
    FastPathIsCanonical(a.block, b.block);
    SlowPathIff(a.block, b.block);
  }

  lemma SlowPathIff(a: Block, b: Block)
    requires WellSized(a) && WellSized(b)
    ensures Sign(CompareElements(Element(a, false), Element(b, false))) == Canonical(a, b) <==> SlowPathRight(a, b)
  {
    ToInt32Sign(a.typ - b.typ);
    ToInt32Sign(|a.value| - |b.value|);
  }

  /** Whether a difference keeps its sign as an `int`. */
  lemma ToInt32Sign(x: int)
    ensures ToInt32(x) == 0 <==> x % TWO32 == 0
    ensures x % TWO32 != 0 ==> (Sign(ToInt32(x)) == Sign(x) <==> (0 < x <==> x % TWO32 < TWO31))
    ensures x != 0 && -FOUR_GIB < x < FOUR_GIB ==>
              x % TWO32 != 0 && ((0 < x <==> x % TWO32 < TWO31) <==> -TWO31 <= x < TWO31)
  {
  }

  /**
   * The asterisk of a parsed descriptor carries no wire. Against a decoded element of type 2^31 + 83 it
   * comes out greater. With an element of type 83 between them, also decoded, the three go round in a circle.
   */
  lemma AsteriskMisordered(v: seq<Byte>)
    requires |v| < TWO64
    ensures var star, mid := Element(ASTERISK, false), Element(Block(83, v), true);
            var high := Element(Block(0x8000_0053, v), true);
            && Canonical(star.block, high.block) == -1 && CompareElements(star, high) > 0
            && CompareElements(star, mid) < 0 && CompareElements(mid, high) < 0
  {
    hide EncodeBlock;
    FastPathIsCanonical(Block(83, v), Block(0x8000_0053, v));
  }

  lemma CanonicalZero(a: Block, b: Block)
    ensures Canonical(a, b) == 0 <==> a == b
  {
    if |a.value| == |b.value| { MemCmpZero(a.value, b.value); }
  }

  lemma CanonicalFlip(a: Block, b: Block)
    ensures Canonical(a, b) == -Canonical(b, a)
  {
    MemCmpFlip(a.value, b.value);
  }

  lemma CanonicalTransitive(a: Block, b: Block, c: Block)
    requires Canonical(a, b) <= 0 && Canonical(b, c) <= 0
    ensures Canonical(a, c) <= 0
    ensures Canonical(a, b) < 0 || Canonical(b, c) < 0 ==> Canonical(a, c) < 0
  {
    if |a.value| == |b.value| == |c.value| && a.typ == b.typ == c.typ {
      MemCmpTransitive(a.value, b.value, c.value);
    }
  }

  /** The order of descriptors: the first differing element decides, then the length. */
  function Order(a: Cd, b: Cd): (r: int) {
    if a == [] || b == [] then Sign(|a| - |b|)
    else if a[0] != b[0] then Canonical(a[0], b[0])
    else Order(a[1..], b[1..])
  }

  /** The first pair of elements that differ. */
  ghost predicate FirstDifference(a: Cd, b: Cd, i: nat) {
    i < |a| && i < |b| && a[..i] == b[..i] && a[i] != b[i]
  }

  lemma DifferenceHere(a: Cd, b: Cd, i: nat)
    requires i < |a| && i < |b| && a[..i] == b[..i] && a[i] != b[i]
    ensures FirstDifference(a, b, i)
  {
  }

  lemma {:induction false} OrderAtDifference(a: Cd, b: Cd, i: nat)
    requires FirstDifference(a, b, i)
    ensures Order(a, b) == Canonical(a[i], b[i])
  {
    if 0 < i {
      assert a[..i][0] == b[..i][0];
      assert a[1..][..i - 1] == a[..i][1..] && b[1..][..i - 1] == b[..i][1..];
      OrderAtDifference(a[1..], b[1..], i - 1);
    }
  }

  lemma {:induction false} OrderOfPrefix(a: Cd, b: Cd)
    requires a <= b || b <= a
    ensures Order(a, b) == Sign(|a| - |b|)
  {
    if a != [] && b != [] {
      assert a[0] == b[0];
      OrderOfPrefix(a[1..], b[1..]);
    }
  }

  /** It decides their order, and only one pair is the first. */
  lemma DifferenceDecides(a: Cd, b: Cd, i: nat)
    requires FirstDifference(a, b, i)
    ensures Order(a, b) == Canonical(a[i], b[i]) && !(a <= b) && !(b <= a)
    ensures forall k: nat :: FirstDifference(a, b, k) ==> k == i
  {
    hide Order, Canonical;
    OrderAtDifference(a, b, i);
    forall k: nat | FirstDifference(a, b, k) ensures k == i {
      OnlyOneFirst(a, b, i, k);
      OnlyOneFirst(a, b, k, i);
    }
  }

  lemma OnlyOneFirst(a: Cd, b: Cd, i: nat, k: nat)
    requires FirstDifference(a, b, i) && FirstDifference(a, b, k)
    ensures k <= i
  {
  }

  lemma NoDifference(a: Cd, b: Cd)
    requires a <= b || b <= a
    ensures forall k: nat :: !FirstDifference(a, b, k)
  {
  }

  lemma EqualComparesZero(a: Element, b: Element)
    requires a.block == b.block
    ensures CompareElements(a, b) == 0
  {
    hide EncodeBlock;
    MemCmpZero(EncodeBlock(a.block), EncodeBlock(b.block));
    MemCmpZero(a.block.value, b.block.value);
  }

  predicate LengthsClose(a: Block, b: Block) { -FOUR_GIB < |a.value| - |b.value| < FOUR_GIB }

  /** Elements that differ and still compare as zero: only values whose lengths differ by a multiple of 4 GiB. */
  ghost predicate Overlooked(a: Element, b: Element) {
    !Comparable(a, b) && !LengthsClose(a.block, b.block)
  }

  lemma ZeroOverlooks(a: Element, b: Element)
    requires WellSized(a.block) && WellSized(b.block) && a.block != b.block && CompareElements(a, b) == 0
    ensures Overlooked(a, b)
  {
    hide EncodeBlock;
    FastPathIsCanonical(a.block, b.block);
    CanonicalZero(a.block, b.block);
    CompareIsCanonicalIff(a, b);
    ToInt32Sign(a.block.typ - b.block.typ);
    ToInt32Sign(|a.block.value| - |b.block.value|);
    if |a.block.value| == |b.block.value| { MemCmpZero(a.block.value, b.block.value); }
  }

  /**
   * `Cd::compare`. Its sign is the order of the descriptors if no elements differ, or if the first two that
   * do are `Comparable`; otherwise it is not, unless their lengths are 4 GiB or more apart.
   */
  method Compare(a: seq<Element>, b: seq<Element>) returns (r: int)
    requires -TWO31 <= |a| - |b| < TWO31
    requires forall e :: e in a || e in b ==> WellSized(e.block)
    ensures Blocks(a) <= Blocks(b) || Blocks(b) <= Blocks(a) ==> Sign(r) == Order(Blocks(a), Blocks(b))
    ensures forall i: nat :: FirstDifference(Blocks(a), Blocks(b), i) ==>
              && (Comparable(a[i], b[i]) ==> Sign(r) == Order(Blocks(a), Blocks(b)))
              && (!Comparable(a[i], b[i]) && LengthsClose(a[i].block, b[i].block) ==>
                    Sign(r) != Order(Blocks(a), Blocks(b)))
  {
    hide CompareElements, Canonical, Order, Comparable, FirstDifference;
    var count := if |a| < |b| then |a| else |b|;
    ghost var x, y := Blocks(a), Blocks(b);
    ghost var overlooked: Option<nat> := None;
    for i := 0 to count
      invariant overlooked.None? ==> x[..i] == y[..i]
      invariant overlooked.Some? ==> overlooked.value < count && FirstDifference(x, y, overlooked.value)
                                     && Overlooked(a[overlooked.value], b[overlooked.value])
    {
      var comp := CompareElements(a[i], b[i]);
      assert a[i] in a && b[i] in b;
      CompareIsCanonicalIff(a[i], b[i]);
      if x[i] == y[i] {
        EqualComparesZero(a[i], b[i]);
      } else if overlooked.None? {
        DifferenceHere(x, y, i);
        if comp == 0 {
          ZeroOverlooks(a[i], b[i]);
          overlooked := Some(i);
        }
      }
      if comp != 0 {
        DifferenceDecides(x, y, if overlooked.Some? then overlooked.value else i);
        return comp;
      }
    }
    if overlooked.Some? {
      DifferenceDecides(x, y, overlooked.value);
    } else {
      NoDifference(x, y);
      OrderOfPrefix(x, y);
    }
    return ToInt32(|a| - |b|);
  }

  /** Comparison is zero exactly on equal descriptors. */
  lemma {:induction false} OrderZero(a: Cd, b: Cd)
    ensures Order(a, b) == 0 <==> a == b
  {
    if a != [] && b != [] {
      CanonicalZero(a[0], b[0]);
      OrderZero(a[1..], b[1..]);
      assert a == [a[0]] + a[1..] && b == [b[0]] + b[1..];
    }
  }

  lemma {:induction false} OrderFlip(a: Cd, b: Cd)
    ensures Order(a, b) == -Order(b, a)
  {
    if a != [] && b != [] {
      CanonicalFlip(a[0], b[0]);
      OrderFlip(a[1..], b[1..]);
    }
  }

  lemma {:induction false} OrderTransitive(a: Cd, b: Cd, c: Cd)
    requires Order(a, b) <= 0 && Order(b, c) <= 0
    ensures Order(a, c) <= 0
    ensures Order(a, b) < 0 || Order(b, c) < 0 ==> Order(a, c) < 0
  {
    hide Canonical;
    if a != [] && b != [] && c != [] {
      CanonicalZero(a[0], b[0]);
      CanonicalZero(b[0], c[0]);
      CanonicalZero(a[0], c[0]);
      if a[0] == b[0] == c[0] {
        OrderTransitive(a[1..], b[1..], c[1..]);
      } else {
        CanonicalTransitive(a[0], b[0], c[0]);
      }
    }
  }

  /**
   * Mixed elements: whichever elements carry their wire, the results of `Compare`, where they are right,
   * are those of one total order in which only equal descriptors compare as zero.
   */
  lemma CompareIsTotalOrder(a: Cd, b: Cd, c: Cd)
    ensures Order(a, b) == 0 <==> a == b
    ensures Order(a, b) <= 0 || Order(b, a) <= 0
    ensures Order(a, b) <= 0 && Order(b, a) <= 0 ==> a == b
    ensures Order(a, b) <= 0 && Order(b, c) <= 0 ==> Order(a, c) <= 0
  {
    OrderZero(a, b);
    OrderFlip(a, b);
    if Order(a, b) <= 0 && Order(b, c) <= 0 { OrderTransitive(a, b, c); }
  }
}
