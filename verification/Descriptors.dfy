/** Content descriptors: their elements, their grammar, equality and prefixes. */
module Descriptors {
  import opened Bytes
  import opened Tlv

  /** The elements of a descriptor's block. */
  type Cd = seq<Block>

  function Component(value: seq<Byte>): Block { Block(CD_COMPONENT, value) }
  function Optional(value: seq<Byte>): Block { Block(CD_OPTIONAL, value) }
  const ASTERISK := Block(CD_ASTERISK, [])

  predicate AllOfType(cd: Cd, typ: nat) { forall i :: 0 <= i < |cd| ==> cd[i].typ == typ }

  /** Components, then optionals, then the asterisk, then components: `C+ O+ A C+`. */
  predicate Shaped(cd: Cd, open: nat, star: nat) {
    && 0 < open < star < |cd| - 1
    && AllOfType(cd[..open], CD_COMPONENT)
    && AllOfType(cd[open..star], CD_OPTIONAL)
    && cd[star] == ASTERISK
    && AllOfType(cd[star + 1..], CD_COMPONENT)
  }

  /** How many elements of type `typ` come first. */
  function Leading(cd: Cd, typ: nat): (n: nat)
    ensures n <= |cd| && AllOfType(cd[..n], typ)
    ensures n < |cd| ==> cd[n].typ != typ
  {
    if cd == [] || cd[0].typ != typ then 0
    else
      var n := Leading(cd[1..], typ);
      assert cd[..1 + n] == [cd[0]] + cd[1..][..n];
      1 + n
  }

  /** Where the optionals begin, or the length of the descriptor. */
  function OpenAt(cd: Cd): nat { Leading(cd, CD_COMPONENT) }

  /** Where the optionals end. */
  function StarAt(cd: Cd): nat { OpenAt(cd) + Leading(cd[OpenAt(cd)..], CD_OPTIONAL) }

  predicate Flat(cd: Cd) { AllOfType(cd, CD_COMPONENT) }

  /** `C*` or `C+ O+ A C+`. */
  predicate Grammatical(cd: Cd) { Flat(cd) || Shaped(cd, OpenAt(cd), StarAt(cd)) }

  lemma {:induction false} LeadingUnique(cd: Cd, typ: nat, n: nat)
    requires n <= |cd| && AllOfType(cd[..n], typ) && (n < |cd| ==> cd[n].typ != typ)
    ensures Leading(cd, typ) == n
  {
    if 0 < n {
      assert cd[..n] == [cd[0]] + cd[1..][..n - 1];
      assert cd[..n][0].typ == typ;
      LeadingUnique(cd[1..], typ, n - 1);
    }
  }

  /** The grammar fixes where the optionals are. */
  lemma ShapeUnique(cd: Cd, open: nat, star: nat)
    requires Shaped(cd, open, star)
    ensures OpenAt(cd) == open && StarAt(cd) == star && Grammatical(cd) && !Flat(cd)
  {
    assert cd[open] == cd[open..star][0];
    LeadingUnique(cd, CD_COMPONENT, open);
    assert cd[open..][..star - open] == cd[open..star];
    LeadingUnique(cd[open..], CD_OPTIONAL, star - open);
  }

  /** The types of a shaped descriptor's elements, one by one. */
  lemma ShapedTypes(cd: Cd, open: nat, star: nat)
    requires Shaped(cd, open, star)
    ensures forall i :: 0 <= i < |cd| ==>
              cd[i].typ == if i < open || star < i then CD_COMPONENT else if i < star then CD_OPTIONAL else CD_ASTERISK
  {
    forall i | 0 <= i < |cd|
      ensures cd[i].typ == if i < open || star < i then CD_COMPONENT else if i < star then CD_OPTIONAL else CD_ASTERISK
    {
      if i < open {
        assert cd[i] == cd[..open][i];
      } else if i < star {
        assert cd[i] == cd[open..star][i - open];
      } else if star < i {
        assert cd[i] == cd[star + 1..][i - star - 1];
      }
    }
  }

  /** `Cd::equals`: size and elements compared one by one. */
  method Equals(a: Cd, b: Cd) returns (r: bool)
    ensures r <==> a == b
  {
    if |a| != |b| {
      return false;
    }
    for i := 0 to |a|
      invariant a[..i] == b[..i]
    {
      if a[i] != b[i] {
        return false;
      }
    }
    assert a == a[..|a|] && b == b[..|b|];
    return true;
  }

  /** `Cd::isPrefixOf`. */
  method IsPrefixOf(a: Cd, b: Cd) returns (r: bool)
    ensures r <==> a <= b
  {
    if |a| > |b| {
      return false;
    }
    for i := 0 to |a|
      invariant a[..i] == b[..i]
    {
      if a[i] != b[i] {
        return false;
      }
    }
    return true;
  }
}
