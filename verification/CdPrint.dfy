/** Printing descriptors as URIs. Escaping follows section 2.1 of RFC 3986 with upper-case digits. */
module CdPrint {
  import opened Bytes
  import opened Tlv
  import opened Descriptors

  const SLASH: Byte := 0x2F
  const OPEN: Byte := 0x28
  const CLOSE: Byte := 0x29
  const DOT: Byte := 0x2E
  const PERCENT: Byte := 0x25

  /** Digits, letters, `+`, `-`, `.` and `_` stand for themselves. */
  predicate Unescaped(x: Byte) {
    0x30 <= x <= 0x39 || 0x41 <= x <= 0x5A || 0x61 <= x <= 0x7A || x == 0x2B || x == 0x2D || x == 0x2E || x == 0x5F
  }

  predicate AllDots(v: seq<Byte>) { forall i :: 0 <= i < |v| ==> v[i] == DOT }

  function HexDigit(d: int): Byte
    requires 0 <= d < 16
  {
    if d < 10 then 0x30 + d else 0x41 + d - 10
  }

  function EscapeByte(x: Byte): (s: seq<Byte>)
    ensures 0 < |s|
  {
    if Unescaped(x) then [x] else [PERCENT, HexDigit(x / 16), HexDigit(x % 16)]
  }

  function Escape(v: seq<Byte>): seq<Byte> {
    if v == [] then [] else EscapeByte(v[0]) + Escape(v[1..])
  }

  /** A value of zero or more dots gets three more; any other is escaped byte by byte. */
  function ToUri(v: seq<Byte>): seq<Byte> {
    if AllDots(v) then [DOT, DOT, DOT] + v else Escape(v)
  }

  lemma EscapeCons(x: Byte, v: seq<Byte>)
    ensures Escape([x] + v) == EscapeByte(x) + Escape(v)
  {
    assert ([x] + v)[1..] == v;
  }

  lemma {:induction false} EscapeConcat(a: seq<Byte>, b: seq<Byte>)
    ensures Escape(a + b) == Escape(a) + Escape(b)
  {
    if a == [] {
      assert a + b == b;
    } else {
      hide Escape;
      EscapeConcat(a[1..], b);
      assert a == [a[0]] + a[1..] && a + b == [a[0]] + (a[1..] + b);
      EscapeCons(a[0], a[1..]);
      EscapeCons(a[0], a[1..] + b);
      ConcatAssociative(EscapeByte(a[0]), Escape(a[1..]), Escape(b));
    }
  }

  lemma EscapeSnoc(v: seq<Byte>, i: nat)
    requires i < |v|
    ensures Escape(v[..i + 1]) == Escape(v[..i]) + EscapeByte(v[i])
  {
    assert v[..i + 1] == v[..i] + [v[i]];
    EscapeConcat(v[..i], [v[i]]);
    EscapeCons(v[i], []);
  }

  /** `Optional::toUri`: look for a byte that is not a dot, then print. */
  method PrintValue(v: seq<Byte>) returns (os: seq<Byte>)
    ensures os == ToUri(v)
  {
    var gotNonDot := false;
    for i := 0 to |v|
      invariant !gotNonDot && forall k :: 0 <= k < i ==> v[k] == DOT
    {
      if v[i] != DOT {
        gotNonDot := true;
        break;
      }
    }
    os := [];
    if !gotNonDot {
      os := os + [DOT, DOT, DOT];
      for i := 0 to |v|
        invariant os == [DOT, DOT, DOT] + v[..i]
      {
        os := os + [DOT];
      }
      assert v[..|v|] == v;
    } else {
      for i := 0 to |v|
        invariant os == Escape(v[..i])
      {
        hide Escape;
        var x := v[i];
        EscapeSnoc(v, i);
        ghost var before := os;
        if Unescaped(x) {
          os := os + [x];
        } else {
          os := os + [PERCENT];
          if x < 16 {
            os := os + [0x30];
          }
          os := os + Hex(x);
        }
        assert os == before + EscapeByte(x);
      }
      assert v[..|v|] == v;
    }
  }

  /** Upper-case hexadecimal without leading zeros. */
  function Hex(x: Byte): seq<Byte> {
    if x < 16 then [HexDigit(x)] else [HexDigit(x / 16), HexDigit(x % 16)]
  }

  // ---- What is printed, byte by byte

  /** A letter, a digit, or one of four signs. */
  predicate Literal(x: Byte) {
    var c := x as char;
    'a' <= c <= 'z' || 'A' <= c <= 'Z' || '0' <= c <= '9' || c == '+' || c == '-' || c == '.' || c == '_'
  }

  predicate OnlyDots(v: seq<Byte>) { forall i :: 0 <= i < |v| ==> v[i] as char == '.' }

  /** A percent sign and two upper-case hexadecimal digits, whose number is the byte. */
  predicate IsPercentForm(s: seq<Byte>, x: Byte) {
    && |s| == 3 && s[0] as char == '%' && IsHexDigit(s[1], x / 16) && IsHexDigit(s[2], x % 16)
  }

  predicate IsHexDigit(c: Byte, d: int) {
    if d < 10 then c == '0' as int + d else c == 'A' as int + (d - 10)
  }

  /** Values of dots, the empty one among them, get three more dots. */
  lemma DotsPrint(v: seq<Byte>)
    requires OnlyDots(v)
    ensures OnlyDots(ToUri(v)) && |ToUri(v)| == |v| + 3
  {
  }

  /** Of any other value each byte is printed by itself: a literal as it is, another in percent form. */
  lemma {:induction false} OthersPrint(v: seq<Byte>) returns (pieces: seq<seq<Byte>>)
    requires !OnlyDots(v)
    ensures |pieces| == |v| && ToUri(v) == Joined(pieces)
    ensures forall i :: 0 <= i < |v| ==> if Literal(v[i]) then pieces[i] == [v[i]] else IsPercentForm(pieces[i], v[i])
  {
    pieces := Pieces(v);
  }

  function Joined(pieces: seq<seq<Byte>>): seq<Byte> {
    if pieces == [] then [] else pieces[0] + Joined(pieces[1..])
  }

  lemma {:induction false} Pieces(v: seq<Byte>) returns (pieces: seq<seq<Byte>>)
    ensures |pieces| == |v| && Escape(v) == Joined(pieces)
    ensures forall i :: 0 <= i < |v| ==> if Literal(v[i]) then pieces[i] == [v[i]] else IsPercentForm(pieces[i], v[i])
  {
    pieces := [];
    if v != [] {
      var rest := Pieces(v[1..]);
      pieces := [EscapeByte(v[0])] + rest;
      assert pieces[1..] == rest;
    }
  }

  // ---- Printing one value is injective: it has an inverse.

  function HexValue(c: Byte): int { if c < 0x41 then c - 0x30 else c - 0x41 + 10 }

  function Unescape(s: seq<Byte>): seq<int> {
    if s == [] then []
    else if s[0] != PERCENT then [s[0]] + Unescape(s[1..])
    else if |s| < 3 then []
    else [16 * HexValue(s[1]) + HexValue(s[2])] + Unescape(s[3..])
  }

  function FromUri(s: seq<Byte>): seq<int> {
    if AllDots(s) && 3 <= |s| then s[3..] else Unescape(s)
  }

  lemma {:induction false} UnescapeEscape(v: seq<Byte>)
    ensures Unescape(Escape(v)) == v
  {
    if v != [] {
      var e, s := EscapeByte(v[0]), Escape(v[1..]);
      UnescapeEscape(v[1..]);
      assert (e + s)[|e|..] == s;
      assert v == [v[0]] + v[1..];
    }
  }

  lemma {:induction false} EscapeKeepsNonDots(v: seq<Byte>)
    requires !AllDots(v)
    ensures !AllDots(Escape(v))
  {
    var e, s := EscapeByte(v[0]), Escape(v[1..]);
    if v[0] != DOT {
      assert (e + s)[0] != DOT;
    } else {
      assert !AllDots(v[1..]) by {
        var i :| 0 <= i < |v| && v[i] != DOT;
        assert v[1..][i - 1] != DOT;
      }
      EscapeKeepsNonDots(v[1..]);
      var i :| 0 <= i < |s| && s[i] != DOT;
      assert (e + s)[|e| + i] != DOT;
    }
  }

  /** The printed form determines the value: all-dots and percent escapes never collide. */
  lemma ToUriInvertible(v: seq<Byte>)
    ensures FromUri(ToUri(v)) == v
  {
    if AllDots(v) {
      assert AllDots(ToUri(v));
    } else {
      EscapeKeepsNonDots(v);
      UnescapeEscape(v);
    }
  }

  /** Bytes a printed value can contain. */
  predicate Printable(s: seq<Byte>) { forall i :: 0 <= i < |s| ==> Unescaped(s[i]) || s[i] == PERCENT }

  lemma {:induction false} EscapePrintable(v: seq<Byte>)
    ensures Printable(Escape(v)) && |v| <= |Escape(v)|
    ensures Escape(v) == v <==> forall i :: 0 <= i < |v| ==> Unescaped(v[i])
    ensures (exists i :: 0 <= i < |v| && !Unescaped(v[i])) ==> |v| < |Escape(v)|
  {
    if v != [] {
      EscapePrintable(v[1..]);
      assert v == [v[0]] + v[1..];
    }
  }

  /** Values that print as themselves: not all dots, and literals only. */
  predicate SafeValue(v: seq<Byte>) { !OnlyDots(v) && forall i :: 0 <= i < |v| ==> Literal(v[i]) }

  lemma ToUriPrintable(v: seq<Byte>)
    ensures Printable(ToUri(v)) && ToUri(v) != []
    ensures ToUri(v) == v <==> SafeValue(v)
  {
    EscapePrintable(v);
  }

  // ---- Descriptors

  /** The elements from some point on; `first` until the opening parenthesis is printed. */
  function PrintFrom(cd: Cd, first: bool): seq<Byte> {
    if cd == [] then []
    else if cd[0].typ == CD_OPTIONAL then
      (if first then [OPEN] else []) + ([SLASH] + ToUri(cd[0].value) + PrintFrom(cd[1..], false))
    else if cd[0].typ == CD_ASTERISK then
      [CLOSE] + PrintFrom(cd[1..], first)
    else
      [SLASH] + ToUri(cd[0].value) + PrintFrom(cd[1..], first)
  }

  function Print(cd: Cd): seq<Byte> { if cd == [] then [SLASH] else PrintFrom(cd, true) }

  /** `operator<<`. */
  method PrintCd(cd: Cd) returns (os: seq<Byte>)
    ensures os == Print(cd)
  {
    hide ToUri;
    os := [];
    if cd == [] {
      return [SLASH];
    }
    var first := true;
    assert cd[0..] == cd;
    for i := 0 to |cd|
      invariant os + PrintFrom(cd[i..], first) == Print(cd)
    {
      assert cd[i..][1..] == cd[i + 1..];
      var s := PrintValue(cd[i].value);
      ghost var rest := PrintFrom(cd[i + 1..], if cd[i].typ == CD_OPTIONAL then false else first);
      if cd[i].typ == CD_OPTIONAL {
        var o := if first then [OPEN] else [];
        first := false;
        assert os + (o + ([SLASH] + s + rest)) == os + o + [SLASH] + s + rest;
        os := os + o + [SLASH] + s;
      } else if cd[i].typ == CD_ASTERISK {
        assert os + ([CLOSE] + rest) == os + [CLOSE] + rest;
        os := os + [CLOSE];
      } else {
        assert os + ([SLASH] + s + rest) == os + [SLASH] + s + rest;
        os := os + [SLASH] + s;
      }
    }
  }
}
