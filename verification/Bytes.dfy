/** Bytes, big-endian numbers and `memcmp`, as the encoders and comparisons use them. */
module Bytes {

  type Byte = x: int | 0 <= x < 256

  datatype Option<+T> = None | Some(value: T)

  function Pow256(k: nat): (p: nat)
    ensures 0 < p
  {
    if k == 0 then 1 else 256 * Pow256(k - 1)
  }

  /** The low `k` bytes of `n`, most significant first: higher bytes are cut off, as a cast does. */
  function BigEndian(n: nat, k: nat): (s: seq<Byte>)
    ensures |s| == k
  {
    if k == 0 then [] else BigEndian(n / 256, k - 1) + [n % 256]
  }

  function FromBigEndian(s: seq<Byte>): nat {
    if s == [] then 0 else 256 * FromBigEndian(s[..|s| - 1]) + s[|s| - 1]
  }

  lemma {:induction false} BigEndianRoundTrip(n: nat, k: nat)
    requires n < Pow256(k)
    ensures FromBigEndian(BigEndian(n, k)) == n
  {
    if k > 0 {
      BigEndianRoundTrip(n / 256, k - 1);
      assert BigEndian(n, k)[..k - 1] == BigEndian(n / 256, k - 1);
    }
  }

  lemma {:induction false} FromBigEndianRoundTrip(s: seq<Byte>)
    ensures FromBigEndian(s) < Pow256(|s|)
    ensures BigEndian(FromBigEndian(s), |s|) == s
  {
    if s != [] {
      FromBigEndianRoundTrip(s[..|s| - 1]);
      assert s == s[..|s| - 1] + [s[|s| - 1]];
    }
  }

  lemma ConcatAssociative<T>(a: seq<T>, b: seq<T>, c: seq<T>)
    ensures (a + b) + c == a + (b + c)
  {
  }

  /** The sign of `memcmp` over the length of the shorter string. */
  function MemCmp(s: seq<Byte>, t: seq<Byte>): (r: int)
    ensures -1 <= r <= 1
  {
    if s == [] || t == [] then 0
    else if s[0] < t[0] then -1
    else if s[0] > t[0] then 1
    else MemCmp(s[1..], t[1..])
  }

  function Sign(x: int): int { if x < 0 then -1 else if x > 0 then 1 else 0 }

  lemma {:induction false} MemCmpSkip(a: seq<Byte>, s: seq<Byte>, t: seq<Byte>)
    ensures MemCmp(a + s, a + t) == MemCmp(s, t)
  {
    if a == [] {
      assert a + s == s && a + t == t;
    } else {
      MemCmpSkip(a[1..], s, t);
      assert (a + s)[1..] == a[1..] + s && (a + t)[1..] == a[1..] + t;
    }
  }

  lemma {:induction false} MemCmpDecided(a: seq<Byte>, b: seq<Byte>, s: seq<Byte>, t: seq<Byte>)
    requires MemCmp(a, b) != 0
    ensures MemCmp(a + s, b + t) == MemCmp(a, b)
  {
    if a[0] == b[0] {
      MemCmpDecided(a[1..], b[1..], s, t);
      assert (a + s)[1..] == a[1..] + s && (b + t)[1..] == b[1..] + t;
    }
  }

  lemma {:induction false} MemCmpZero(a: seq<Byte>, b: seq<Byte>)
    requires |a| == |b|
    ensures MemCmp(a, b) == 0 <==> a == b
  {
    if a != [] {
      MemCmpZero(a[1..], b[1..]);
      assert a == [a[0]] + a[1..] && b == [b[0]] + b[1..];
    }
  }

  lemma {:induction false} MemCmpFlip(a: seq<Byte>, b: seq<Byte>)
    ensures MemCmp(a, b) == -MemCmp(b, a)
  {
    if a != [] && b != [] && a[0] == b[0] { MemCmpFlip(a[1..], b[1..]); }
  }

  lemma {:induction false} MemCmpTransitive(a: seq<Byte>, b: seq<Byte>, c: seq<Byte>)
    requires |a| == |b| == |c|
    requires MemCmp(a, b) <= 0 && MemCmp(b, c) <= 0
    ensures MemCmp(a, c) <= 0
    ensures MemCmp(a, b) < 0 || MemCmp(b, c) < 0 ==> MemCmp(a, c) < 0
  {
    if a != [] && a[0] == b[0] == c[0] { MemCmpTransitive(a[1..], b[1..], c[1..]); }
  }

  /** Big-endian strings of one length are ordered as their numbers are. */
  lemma {:induction false} BigEndianOrder(m: nat, n: nat, k: nat)
    requires m < n < Pow256(k)
    ensures MemCmp(BigEndian(m, k), BigEndian(n, k)) == -1
  {
    var a, b := BigEndian(m / 256, k - 1), BigEndian(n / 256, k - 1);
    if m / 256 < n / 256 {
      BigEndianOrder(m / 256, n / 256, k - 1);
      MemCmpDecided(a, b, [m % 256], [n % 256]);
    } else {
      MemCmpSkip(a, [m % 256], [n % 256]);
    }
  }
}
