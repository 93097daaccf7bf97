/** Numbers as text: what the program prints, and what `boost::lexical_cast` makes of a string. */
module Lexical {
  import opened Bytes

  const PLUS: Byte := 0x2B
  const MINUS: Byte := 0x2D

  predicate IsDigit(c: Byte) { 0x30 <= c <= 0x39 }

  predicate Digits(s: seq<Byte>) { s != [] && forall i :: 0 <= i < |s| ==> IsDigit(s[i]) }

  function Decimal(n: nat): (s: seq<Byte>)
    ensures Digits(s) && NumberOf(s) == n
  {
    if n < 10 then [0x30 + n]
    else
      var s := Decimal(n / 10);
      assert (s + [0x30 + n % 10])[..|s|] == s;
      s + [0x30 + n % 10]
  }

  function NumberOf(s: seq<Byte>): nat
    requires forall i :: 0 <= i < |s| ==> IsDigit(s[i])
  {
    if s == [] then 0
    else
      assert IsDigit(s[|s| - 1]);
      10 * NumberOf(s[..|s| - 1]) + (s[|s| - 1] - 0x30 as int)
  }

  /**
   * `lexical_cast` to an unsigned type with `bound` values: digits of a number in the type's range, behind
   * at most one sign. A minus sign is accepted and wraps the number around. Anything else is `bad_lexical_cast`.
   */
  function ParseUnsigned(s: seq<Byte>, bound: nat): (r: Option<nat>)
    ensures r.Some? ==> r.value < bound
  {
    var signed := s != [] && (s[0] == PLUS || s[0] == MINUS);
    var digits := if signed then s[1..] else s;
    if !Digits(digits) || bound <= NumberOf(digits) then None
    else if signed && s[0] == MINUS then Some((bound - NumberOf(digits)) % bound)
    else Some(NumberOf(digits))
  }

  /** Reading a printed number gives that number, if the type can hold it, and fails otherwise. */
  lemma DecimalParses(n: nat, bound: nat)
    ensures ParseUnsigned(Decimal(n), bound) == if n < bound then Some(n) else None
  {
    assert IsDigit(Decimal(n)[0]);
  }

  /** A sign in front is accepted: plus changes nothing, minus wraps the number around. */
  lemma SignedParses(n: nat, bound: nat)
    requires n < bound
    ensures ParseUnsigned([0x2B] + Decimal(n), bound) == Some(n)
    ensures ParseUnsigned([0x2D] + Decimal(n), bound) == Some(if n == 0 then 0 else bound - n)
  {
    hide Decimal, NumberOf, ParseUnsigned;
    SignParses(PLUS, Decimal(n), bound);
    SignParses(MINUS, Decimal(n), bound);
    if n == 0 { SelfModulo(bound); } else { SmallModulo(bound - n, bound); }
  }

  lemma SignParses(sign: Byte, digits: seq<Byte>, bound: nat)
    requires (sign == PLUS || sign == MINUS) && Digits(digits) && NumberOf(digits) < bound
    ensures ParseUnsigned([sign] + digits, bound)
            == Some(if sign == MINUS then (bound - NumberOf(digits)) % bound else NumberOf(digits))
  {
    hide NumberOf;
    assert ([sign] + digits)[1..] == digits;
  }

  lemma SelfModulo(b: nat)
    requires 0 < b
    ensures b % b == 0
  {
  }

  lemma SmallModulo(a: nat, b: nat)
    requires a < b
    ensures a % b == a
  {
  }

  /** Nothing else is accepted: what is read is digits behind at most one sign, of a number in range. */
  lemma OnlyNumbersParse(s: seq<Byte>, bound: nat)
    requires ParseUnsigned(s, bound).Some?
    ensures s != [] && '0' <= s[|s| - 1] as char <= '9'
    ensures forall i :: 1 <= i < |s| ==> '0' <= s[i] as char <= '9'
    ensures '0' <= s[0] as char <= '9' || s[0] as char == '+' || s[0] as char == '-'
  {
    if s[0] == PLUS || s[0] == MINUS {
      forall i | 1 <= i < |s| ensures IsDigit(s[i]) { assert s[i] == s[1..][i - 1]; }
    }
  }

  /** Printed numbers have no leading zeros. */
  lemma {:induction false} DecimalIsShort(n: nat)
    ensures n < 10 ==> Decimal(n) == [0x30 + n]
    ensures 10 <= n ==> Decimal(n)[0] != 0x30
    ensures 0 < n ==> Decimal(n)[0] != 0x30
  {
    if 10 <= n { DecimalIsShort(n / 10); }
  }
}
