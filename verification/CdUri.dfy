/** Descriptors from whole URIs, and what printing and reading back gives. */
module CdUri {
  import opened Bytes
  import opened Tlv
  import opened Descriptors
  import opened CdPrint
  import opened CdParse

  // ---- Trimming and splitting at slashes

  function TrimLeft(s: seq<Byte>): (t: seq<Byte>)
    ensures |t| <= |s| && t == s[|s| - |t|..]
    ensures forall i :: 0 <= i < |s| - |t| ==> s[i] == SLASH
    ensures t != [] ==> t[0] != SLASH
  {
    if s == [] || s[0] != SLASH then s else TrimLeft(s[1..])
  }

  function TrimRight(s: seq<Byte>): (t: seq<Byte>)
    ensures t <= s
    ensures forall i :: |t| <= i < |s| ==> s[i] == SLASH
    ensures t != [] ==> t[|t| - 1] != SLASH
  {
    if s == [] || s[|s| - 1] != SLASH then s else TrimRight(s[..|s| - 1])
  }

  /** The pieces of `s` between slashes: one more than there are slashes. */
  function Split(s: seq<Byte>): (ws: seq<Word>)
    ensures 0 < |ws|
  {
    if s == [] then [[]]
    else
      var ws := Split(s[1..]);
      if s[0] == SLASH then [[]] + ws else [[s[0]] + ws[0]] + ws[1..]
  }

  /** The words, each behind a slash. */
  function Slashed(ws: seq<Word>): seq<Byte> {
    if ws == [] then [] else [SLASH] + ws[0] + Slashed(ws[1..])
  }

  lemma SlashedCons(w: Word, ws: seq<Word>)
    ensures Slashed([w] + ws) == [SLASH] + w + Slashed(ws)
  {
    assert ([w] + ws)[1..] == ws;
  }

  lemma {:induction false} SlashedConcat(a: seq<Word>, b: seq<Word>)
    ensures Slashed(a + b) == Slashed(a) + Slashed(b)
  {
    if a == [] {
      assert a + b == b;
    } else {
      hide Slashed;
      SlashedConcat(a[1..], b);
      assert a == [a[0]] + a[1..] && a + b == [a[0]] + (a[1..] + b);
      SlashedCons(a[0], a[1..]);
      SlashedCons(a[0], a[1..] + b);
      ConcatAssociative([SLASH] + a[0], Slashed(a[1..]), Slashed(b));
    }
  }

  lemma SlashedHead(ws: seq<Word>)
    requires ws != []
    ensures Slashed(ws) == [SLASH] + (ws[0] + Slashed(ws[1..])) && Slashed(ws)[1..] == ws[0] + Slashed(ws[1..])
  {
    ConcatAssociative([SLASH], ws[0], Slashed(ws[1..]));
  }

  /** Splitting loses nothing. */
  lemma {:induction false} SplitJoins(s: seq<Byte>)
    ensures Slashed(Split(s)) == [SLASH] + s
  {
    if s == [] {
      SlashedOne([]);
    } else {
      hide Slashed;
      SplitJoins(s[1..]);
      assert s == [s[0]] + s[1..];
      if s[0] == SLASH {
        EmptyWordFirst(Split(s[1..]), s[1..]);
      } else {
        LongerFirstWord(s[0], Split(s[1..]), s[1..]);
      }
    }
  }

  lemma EmptyWordFirst(ws: seq<Word>, s: seq<Byte>)
    requires Slashed(ws) == [SLASH] + s
    ensures Slashed([[]] + ws) == [SLASH] + ([SLASH] + s)
  {
    hide Slashed;
    SlashedCons([], ws);
    assert [SLASH] + [] == [SLASH];
  }

  lemma LongerFirstWord(x: Byte, ws: seq<Word>, s: seq<Byte>)
    requires ws != [] && Slashed(ws) == [SLASH] + s
    ensures Slashed([[x] + ws[0]] + ws[1..]) == [SLASH] + ([x] + s)
  {
    hide Slashed;
    SlashedHead(ws);
    assert s == ([SLASH] + s)[1..];
    SlashedCons([x] + ws[0], ws[1..]);
    ConcatAssociative([SLASH], [x] + ws[0], Slashed(ws[1..]));
    ConcatAssociative([x], ws[0], Slashed(ws[1..]));
  }

  predicate NoSlash(w: Word) { SLASH !in w }

  lemma {:induction false} SplitWord(w: Word, ws: seq<Word>)
    requires NoSlash(w) && (ws != [] ==> Split(Slashed(ws)[1..]) == ws)
    ensures Split(w + Slashed(ws)) == [w] + ws
  {
    if ws == [] { SlashedNone(); } else { SlashedHead(ws); }
    hide Slashed;
    var s := w + Slashed(ws);
    if w == [] {
      if ws != [] { assert s == [SLASH] + Slashed(ws)[1..]; }
    } else {
      assert NoSlash(w[1..]);
      SplitWord(w[1..], ws);
      assert s[1..] == w[1..] + Slashed(ws);
      assert w == [w[0]] + w[1..];
    }
  }

  /** Splitting is the inverse of joining words without slashes. */
  lemma {:induction false} SplitSlashed(ws: seq<Word>)
    requires ws != [] && forall w :: w in ws ==> NoSlash(w)
    ensures Split(Slashed(ws)[1..]) == ws
  {
    hide Split, Slashed, NoSlash;
    assert ws[0] in ws && forall w :: w in ws[1..] ==> w in ws;
    if ws[1..] != [] { SplitSlashed(ws[1..]); }
    SplitWord(ws[0], ws[1..]);
    SlashedHead(ws);
  }

  // ---- Whole URIs

  /** The descriptor a URI stands for, or nothing where the constructor throws. */
  function UriMeaning(uri: seq<Byte>): Option<Cd> {
    var s := TrimRight(TrimLeft(uri));
    if s == [] then Some([]) else Meaning(Split(s))
  }

  method ParseUri(uri: seq<Byte>) returns (r: Option<Cd>)
    ensures r == UriMeaning(uri)
  {
    var s := TrimRight(TrimLeft(uri));
    if s == [] {
      return Some([]);
    }
    var words := Split(s);
    r := ParseCdString(words);
  }

  /** Every URI the constructor accepts gives `C*` or `C+ O+ A C+`. */
  lemma AcceptedIsGrammatical(uri: seq<Byte>)
    ensures UriMeaning(uri).Some? ==> Grammatical(UriMeaning(uri).value)
  {
    hide Meaning, Split, TrimLeft, TrimRight;
    var s := TrimRight(TrimLeft(uri));
    if s == [] {
      assert Flat([]);
    } else if Meaning(Split(s)).Some? {
      MeaningIsGrammatical(Split(s));
    }
  }

  // ---- Exactly which URIs are accepted, and for what

  function Slashes(n: nat): (s: seq<Byte>)
    ensures |s| == n && forall i :: 0 <= i < n ==> s[i] == 0x2F
  {
    if n == 0 then [] else [0x2F] + Slashes(n - 1)
  }

  lemma TrimLeftStep(x: Byte, s: seq<Byte>)
    ensures TrimLeft([x] + s) == if x == SLASH then TrimLeft(s) else [x] + s
  {
    assert ([x] + s)[1..] == s;
  }

  lemma {:induction false} TrimLeftSlashes(l: nat, s: seq<Byte>)
    ensures TrimLeft(Slashes(l) + s) == TrimLeft(s)
  {
    hide TrimLeft;
    if l == 0 {
      assert Slashes(l) + s == s;
    } else {
      TrimLeftSlashes(l - 1, s);
      TrimLeftStep(SLASH, Slashes(l - 1) + s);
      ConcatAssociative([SLASH], Slashes(l - 1), s);
    }
  }

  lemma OnlySlashes(r: nat)
    ensures TrimLeft(Slashes(r)) == []
  {
    TrimLeftSlashes(r, []);
    assert Slashes(r) + [] == Slashes(r);
  }

  lemma TrimRightStep(s: seq<Byte>, x: Byte)
    ensures TrimRight(s + [x]) == if x == SLASH then TrimRight(s) else s + [x]
  {
    assert (s + [x])[..|s|] == s;
  }

  lemma {:induction false} TrimRightSlashes(s: seq<Byte>, r: nat)
    ensures TrimRight(s + Slashes(r)) == TrimRight(s)
  {
    hide TrimRight;
    if r == 0 {
      assert s + Slashes(r) == s;
    } else {
      TrimRightSlashes(s, r - 1);
      TrimRightStep(s + Slashes(r - 1), SLASH);
      assert Slashes(r) == Slashes(r - 1) + [SLASH];
      ConcatAssociative(s, Slashes(r - 1), [SLASH]);
    }
  }

  /** Trimming on the left does not see what is behind the first other byte. */
  lemma {:induction false} TrimLeftBehind(s: seq<Byte>, t: seq<Byte>)
    ensures TrimLeft(s + t) == if TrimLeft(s) == [] then TrimLeft(t) else TrimLeft(s) + t
  {
    if s == [] {
      assert s + t == t && TrimLeft(s) == [];
    } else {
      hide TrimLeft;
      var x, rest := s[0], s[1..];
      assert s == [x] + rest && s + t == [x] + (rest + t);
      TrimLeftStep(x, rest);
      TrimLeftStep(x, rest + t);
      TrimLeftBehind(rest, t);
    }
  }

  /** Any number of slashes before and behind makes no difference. */
  lemma OuterSlashes(l: nat, s: seq<Byte>, r: nat)
    ensures UriMeaning(Slashes(l) + s + Slashes(r)) == UriMeaning(s)
  {
    hide Meaning, Split, TrimLeft, TrimRight, Slashes;
    ConcatAssociative(Slashes(l), s, Slashes(r));
    TrimLeftSlashes(l, s + Slashes(r));
    TrimLeftBehind(s, Slashes(r));
    OnlySlashes(r);
    TrimRightSlashes(TrimLeft(s), r);
  }

  /** A URI is slashes around what trimming leaves. */
  lemma TrimmedIs(s: seq<Byte>)
    ensures var core := TrimRight(TrimLeft(s));
            s == Slashes(|s| - |TrimLeft(s)|) + core + Slashes(|TrimLeft(s)| - |core|)
  {
    hide Slashes, TrimLeft, TrimRight;
    var t := TrimLeft(s);
    var core := TrimRight(t);
    AllSlashes(s, 0, |s| - |t|);
    AllSlashes(t, |core|, |t|);
    InPieces(s, t, core);
  }

  lemma InPieces(s: seq<Byte>, t: seq<Byte>, core: seq<Byte>)
    requires |t| <= |s| && t == s[|s| - |t|..] && core <= t
    ensures s == s[..|s| - |t|] + core + t[|core|..]
  {
  }

  lemma AllSlashes(s: seq<Byte>, a: nat, b: nat)
    requires a <= b <= |s| && forall i :: a <= i < b ==> s[i] == SLASH
    ensures s[a..b] == Slashes(b - a)
  {
    hide Slashes;
    forall i | 0 <= i < b - a ensures s[a..b][i] == Slashes(b - a)[i] { assert s[a..b][i] == s[a + i]; }
  }

  /** Words with a slash between them. */
  function Joined(ws: seq<Word>): seq<Byte> { if ws == [] then [] else Slashed(ws)[1..] }

  ghost predicate NoSlashes(ws: seq<Word>) { forall i :: 0 <= i < |ws| ==> NoSlash(ws[i]) }

  lemma {:induction false} SplitNoSlash(s: seq<Byte>)
    ensures NoSlashes(Split(s))
  {
    if s != [] { SplitNoSlash(s[1..]); }
  }

  /** Words joined, with slashes around. */
  ghost predicate IsUriOf(uri: seq<Byte>, ws: seq<Word>, l: nat, r: nat) {
    NoSlashes(ws) && uri == Slashes(l) + Joined(ws) + Slashes(r)
  }

  /** The constructor accepts a URI, as `cd`, exactly if it is such words and they stand for `cd`. */
  lemma UriMeaningIff(uri: seq<Byte>, cd: Cd)
    ensures UriMeaning(uri) == Some(cd) <==> exists ws, l, r :: IsUriOf(uri, ws, l, r) && Reads(ws, cd)
  {
    hide UriMeaning, Reads, IsUriOf;
    if UriMeaning(uri) == Some(cd) {
      var ws, l, r := AcceptedUri(uri, cd);
    }
    if ws, l, r :| IsUriOf(uri, ws, l, r) && Reads(ws, cd) { ReadUri(uri, cd, ws, l, r); }
  }

  lemma AcceptedUri(uri: seq<Byte>, cd: Cd) returns (ws: seq<Word>, l: nat, r: nat)
    requires UriMeaning(uri) == Some(cd)
    ensures IsUriOf(uri, ws, l, r) && Reads(ws, cd)
  {
    hide Meaning, Split, TrimLeft, TrimRight, Slashes, Slashed, ReadsOpen, ReadsGroup;
    var core := TrimRight(TrimLeft(uri));
    TrimmedIs(uri);
    l, r := |uri| - |TrimLeft(uri)|, |TrimLeft(uri)| - |core|;
    if core == [] {
      ws := [];
    } else {
      ws := Split(core);
      SplitNoSlash(core);
      SplitJoins(core);
      assert ([SLASH] + core)[1..] == core;
      MeaningIff(ws, cd);
    }
  }

  lemma ReadUri(uri: seq<Byte>, cd: Cd, ws: seq<Word>, l: nat, r: nat)
    requires IsUriOf(uri, ws, l, r) && Reads(ws, cd)
    ensures UriMeaning(uri) == Some(cd)
  {
    hide Meaning, Slashes, Slashed, ReadsOpen, ReadsGroup, UriMeaning, Reads, NoSlash;
    OuterSlashes(l, Joined(ws), r);
    if ws == [] {
      ReadsNothing(cd);
    } else {
      MeaningIff(ws, cd);
      forall k | 0 <= k < |ws| ensures ws[k] != [] { AcceptedWordsNotEmpty(ws, k); }
      JoinedMeaning(ws);
    }
  }

  lemma ReadsNothing(cd: Cd)
    ensures Reads([], cd) <==> cd == []
    ensures UriMeaning([]) == Some([])
  {
  }

  lemma JoinedMeaning(ws: seq<Word>)
    requires ws != [] && Clean(ws)
    ensures UriMeaning(Joined(ws)) == Meaning(ws)
  {
    hide Meaning, Slashed, Split, NoSlash;
    TrimSlashed(ws);
    SlashedHead(ws);
    assert Slashes(1) + Joined(ws) + Slashes(0) == Slashed(ws);
    OuterSlashes(1, Joined(ws), 0);
    SplitSlashed(ws);
  }

  /** Words without slashes and parentheses, with any slashes around, are their components. */
  lemma PlainUri(ws: seq<Word>, l: nat, r: nat)
    requires forall i :: 0 <= i < |ws| ==> PlainWord(ws[i]) && 0x2F !in ws[i]
    ensures UriMeaning(Slashes(l) + Joined(ws) + Slashes(r)) == Some(Components(ws))
  {
    hide Components, UriMeaning, PlainWord;
    ReadUri(Slashes(l) + Joined(ws) + Slashes(r), Components(ws), ws, l, r);
  }

  // ---- Printing, then reading back

  /** The descriptor with each value replaced by its printed form. */
  function Printed(cd: Cd): (r: Cd)
    ensures |r| == |cd|
    ensures forall i :: 0 <= i < |cd| ==>
              r[i] == if cd[i].typ == CD_ASTERISK then cd[i] else Block(cd[i].typ, ToUri(cd[i].value))
  {
    seq(|cd|, i requires 0 <= i < |cd| =>
      if cd[i].typ == CD_ASTERISK then cd[i] else Block(cd[i].typ, ToUri(cd[i].value)))
  }

  function Uris(cd: Cd): (ws: seq<Word>)
    ensures |ws| == |cd| && forall i :: 0 <= i < |cd| ==> ws[i] == ToUri(cd[i].value)
  {
    seq(|cd|, i requires 0 <= i < |cd| => ToUri(cd[i].value))
  }

  /** Append a byte to the last word. */
  function Mark(ws: seq<Word>, c: Byte): seq<Word>
    requires ws != []
  {
    ws[..|ws| - 1] + [ws[|ws| - 1] + [c]]
  }

  lemma SlashedMark(ws: seq<Word>, c: Byte)
    requires ws != []
    ensures Slashed(Mark(ws, c)) == Slashed(ws) + [c]
  {
    hide Slashed;
    var a, w := ws[..|ws| - 1], ws[|ws| - 1];
    assert ws == a + [w];
    SlashedConcat(a, [w]);
    SlashedConcat(a, [w + [c]]);
    SlashedOne(w);
    SlashedOne(w + [c]);
    assert [SLASH] + (w + [c]) == ([SLASH] + w) + [c];
    ConcatAssociative(Slashed(a), [SLASH] + w, [c]);
  }

  lemma SlashedNone()
    ensures Slashed([]) == []
  {
  }

  lemma SlashedOne(w: Word)
    ensures Slashed([w]) == [SLASH] + w
  {
    assert [w][1..] == [];
  }

  /** Elements of one type print as slashed words. */
  lemma {:induction false} PrintRun(a: Cd, rest: Cd, first: bool)
    requires AllOfType(a, CD_COMPONENT) || (AllOfType(a, CD_OPTIONAL) && !first)
    ensures PrintFrom(a + rest, first) == Slashed(Uris(a)) + PrintFrom(rest, first)
  {
    hide ToUri;
    if a == [] {
      assert a + rest == rest;
    } else {
      PrintRun(a[1..], rest, first);
      assert (a + rest)[1..] == a[1..] + rest;
      assert Uris(a) == [ToUri(a[0].value)] + Uris(a[1..]);
      SlashedCons(ToUri(a[0].value), Uris(a[1..]));
      ConcatAssociative([SLASH] + ToUri(a[0].value), Slashed(Uris(a[1..])), PrintFrom(rest, first));
    }
  }

  /** The words a grammatical descriptor prints as. */
  function PrintedWords(cd: Cd): seq<Word>
    requires Grammatical(cd)
  {
    if Flat(cd) then Uris(cd)
    else Mark(Uris(cd[..OpenAt(cd)]), OPEN) + Mark(Uris(cd[OpenAt(cd)..StarAt(cd)]), CLOSE) + Uris(cd[StarAt(cd) + 1..])
  }

  lemma PrintIsWords(cd: Cd)
    requires Grammatical(cd) && cd != []
    ensures Print(cd) == Slashed(PrintedWords(cd))
  {
    hide OpenAt, StarAt, PrintFrom, Slashed, Mark;
    if Flat(cd) {
      PrintRun(cd, [], true);
      PrintNothing(true);
      assert cd + [] == cd;
    } else {
      var o, s := OpenAt(cd), StarAt(cd);
      var pre, opts, post := cd[..o], cd[o..s], cd[s + 1..];
      CutInFour(cd, o, s);
      PrintShaped(pre, opts, post);
      MarkedSlashed(Uris(pre), Uris(opts), Uris(post));
    }
  }

  lemma CutInFour(cd: Cd, o: nat, s: nat)
    requires o <= s < |cd|
    ensures cd == cd[..o] + (cd[o..s] + ([cd[s]] + cd[s + 1..]))
  {
  }

  lemma PrintShaped(pre: Cd, opts: Cd, post: Cd)
    requires AllOfType(pre, CD_COMPONENT) && AllOfType(opts, CD_OPTIONAL) && opts != [] && AllOfType(post, CD_COMPONENT)
    ensures PrintFrom(pre + (opts + ([ASTERISK] + post)), true)
            == Slashed(Uris(pre)) + ([OPEN] + (Slashed(Uris(opts)) + ([CLOSE] + Slashed(Uris(post)))))
  {
    hide PrintFrom, Slashed, Uris;
    PrintRun(pre, opts + ([ASTERISK] + post), true);
    PrintOpening(opts, [ASTERISK] + post);
    PrintRun(opts, [ASTERISK] + post, false);
    PrintClosing(post);
    PrintRun(post, [], false);
    PrintNothing(false);
    assert post + [] == post && Slashed(Uris(post)) + [] == Slashed(Uris(post));
  }

  lemma MarkedSlashed(pre: seq<Word>, opts: seq<Word>, post: seq<Word>)
    requires pre != [] && opts != []
    ensures Slashed(Mark(pre, OPEN) + Mark(opts, CLOSE) + post)
            == Slashed(pre) + ([OPEN] + (Slashed(opts) + ([CLOSE] + Slashed(post))))
  {
    hide Slashed, Mark;
    SlashedMark(pre, OPEN);
    SlashedMark(opts, CLOSE);
    SlashedConcat(Mark(pre, OPEN), Mark(opts, CLOSE));
    SlashedConcat(Mark(pre, OPEN) + Mark(opts, CLOSE), post);
    Regroup(Slashed(pre), OPEN, Slashed(opts), CLOSE, Slashed(post));
  }

  lemma Regroup(a: seq<Byte>, c: Byte, b: seq<Byte>, d: Byte, e: seq<Byte>)
    ensures a + ([c] + (b + ([d] + e))) == ((a + [c]) + (b + [d])) + e
  {
  }

  lemma PrintNothing(first: bool)
    ensures PrintFrom([], first) == []
  {
  }

  lemma PrintOpening(opts: Cd, rest: Cd)
    requires opts != [] && AllOfType(opts, CD_OPTIONAL)
    ensures PrintFrom(opts + rest, true) == [OPEN] + PrintFrom(opts + rest, false)
  {
  }

  lemma PrintClosing(post: Cd)
    ensures PrintFrom([ASTERISK] + post, false) == [CLOSE] + PrintFrom(post, false)
  {
    assert ([ASTERISK] + post)[1..] == post;
  }

  lemma PrintedIsPlain(v: seq<Byte>)
    ensures Plain(ToUri(v)) && NoSlash(ToUri(v))
  {
    hide ToUri;
    ToUriPrintable(v);
  }

  lemma MarkedWord(w: Word)
    requires Plain(w)
    ensures Opens(w + [OPEN]) && !Plain(w + [OPEN]) && Init(w + [OPEN]) == w
    ensures Closes(w + [CLOSE]) && !Plain(w + [CLOSE]) && Init(w + [CLOSE]) == w
  {
    assert (w + [OPEN])[|w|] == OPEN && (w + [CLOSE])[|w|] == CLOSE;
  }

  /** Plain words with one parenthesised group stand for the shaped descriptor. */
  lemma GroupedMeaning(pre: seq<Word>, opts: seq<Word>, post: seq<Word>)
    requires pre != [] && opts != [] && post != []
    requires AllPlain(pre) && AllPlain(opts) && AllPlain(post)
    ensures Meaning(Mark(pre, OPEN) + Mark(opts, CLOSE) + post)
            == Some(Components(pre) + Optionals(opts) + [ASTERISK] + Components(post))
  {
    hide Plain, Opens, Closes, Init, Components, Optionals;
    var ws := Mark(pre, OPEN) + Mark(opts, CLOSE) + post;
    var rest := Mark(opts, CLOSE) + post;
    var i, j := |pre| - 1, |opts| - 1;
    MarkedWord(pre[i]);
    MarkedWord(opts[j]);
    MarkParts(pre, OPEN, Mark(opts, CLOSE) + post);
    MarkParts(opts, CLOSE, post);
    ConcatAssociative(Mark(pre, OPEN), Mark(opts, CLOSE), post);
    LeadingPlainAt(ws, i);
    LeadingPlainAt(rest, j);
  }

  lemma MarkParts(ws: seq<Word>, c: Byte, more: seq<Word>)
    requires ws != []
    ensures var r := Mark(ws, c) + more;
            r[..|ws| - 1] == ws[..|ws| - 1] && r[|ws| - 1] == ws[|ws| - 1] + [c] && r[|ws|..] == more
    ensures ws[..|ws| - 1] + [ws[|ws| - 1]] == ws
  {
  }

  /** The printed words stand for the descriptor with its values in printed form. */
  lemma PrintedWordsMeaning(cd: Cd)
    requires Grammatical(cd)
    ensures Meaning(PrintedWords(cd)) == Some(Printed(cd))
  {
    hide OpenAt, StarAt, ToUri, Plain, Mark, Meaning, Components, Optionals;
    forall v: seq<Byte> ensures Plain(ToUri(v)) { PrintedIsPlain(v); }
    if Flat(cd) {
      FlatMeaning(cd);
    } else {
      var o, s := OpenAt(cd), StarAt(cd);
      var pre, opts, post := Uris(cd[..o]), Uris(cd[o..s]), Uris(cd[s + 1..]);
      GroupedMeaning(pre, opts, post);
      PrintedIsGrouped(cd, o, s);
    }
  }

  lemma FlatMeaning(cd: Cd)
    requires Flat(cd)
    ensures Meaning(Uris(cd)) == Some(Printed(cd))
  {
    hide ToUri, Plain;
    forall v: seq<Byte> ensures Plain(ToUri(v)) { PrintedIsPlain(v); }
    LeadingPlainIs(Uris(cd), |cd|);
    assert Components(Uris(cd)) == Printed(cd);
  }

  lemma PrintedIsGrouped(cd: Cd, o: nat, s: nat)
    requires Shaped(cd, o, s)
    ensures Printed(cd)
            == Components(Uris(cd[..o])) + Optionals(Uris(cd[o..s])) + [ASTERISK] + Components(Uris(cd[s + 1..]))
  {
    hide ToUri;
    ShapedTypes(cd, o, s);
    var r := Components(Uris(cd[..o])) + Optionals(Uris(cd[o..s])) + [ASTERISK] + Components(Uris(cd[s + 1..]));
    forall i | 0 <= i < |cd| ensures Printed(cd)[i] == r[i] {}
  }

  /** Words that survive splitting and trimming. */
  predicate Clean(ws: seq<Word>) { forall i :: 0 <= i < |ws| ==> NoSlash(ws[i]) && ws[i] != [] }

  lemma PrintedWordsClean(cd: Cd)
    requires Grammatical(cd) && cd != []
    ensures PrintedWords(cd) != [] && Clean(PrintedWords(cd))
  {
    hide OpenAt, StarAt, ToUri, Plain, NoSlash, Mark;
    forall v: seq<Byte> ensures NoSlash(ToUri(v)) && ToUri(v) != [] { PrintedIsPlain(v); ToUriPrintable(v); }
    if !Flat(cd) {
      MarkClean(Uris(cd[..OpenAt(cd)]), OPEN);
      MarkClean(Uris(cd[OpenAt(cd)..StarAt(cd)]), CLOSE);
    }
  }

  lemma MarkClean(ws: seq<Word>, c: Byte)
    requires ws != [] && Clean(ws) && c != SLASH
    ensures Mark(ws, c) != [] && Clean(Mark(ws, c))
  {
  }

  /** Reading a printed descriptor never fails, and gives its values in printed form. */
  lemma PrintedMeaning(cd: Cd)
    requires Grammatical(cd)
    ensures UriMeaning(Print(cd)) == Some(Printed(cd))
  {
    hide PrintFrom, Slashed, Split, Meaning, PrintedWords, Grammatical;
    if cd == [] {
      assert TrimLeft(Print(cd)) == [];
    } else {
      var ws := PrintedWords(cd);
      PrintIsWords(cd);
      PrintedWordsClean(cd);
      PrintedWordsMeaning(cd);
      TrimSlashed(ws);
      SplitSlashed(ws);
    }
  }

  lemma TrimSlashed(ws: seq<Word>)
    requires ws != [] && Clean(ws)
    ensures TrimRight(TrimLeft(Slashed(ws))) == Slashed(ws)[1..] != []
  {
    hide Slashed;
    SlashedHead(ws);
    assert ws[0][0] in ws[0];
    TrimOneSlash(ws[0] + Slashed(ws[1..]));
    SlashedLast(ws);
  }

  lemma TrimOneSlash(s: seq<Byte>)
    requires s != [] && s[0] != SLASH
    ensures TrimLeft([SLASH] + s) == s
  {
    assert ([SLASH] + s)[1..] == s;
  }

  lemma {:induction false} SlashedLast(ws: seq<Word>)
    requires ws != [] && Clean(ws)
    ensures 1 < |Slashed(ws)| && Slashed(ws)[|Slashed(ws)| - 1] != SLASH
  {
    hide Slashed;
    SlashedHead(ws);
    var w := ws[0];
    if |ws| == 1 {
      assert ws == [w] && w[|w| - 1] in w;
      SlashedOne(w);
    } else {
      SlashedLast(ws[1..]);
    }
  }

  /** Every value but the asterisk's prints as itself. */
  predicate SafeCd(cd: Cd) { forall i :: 0 <= i < |cd| ==> cd[i].typ == CD_ASTERISK || SafeValue(cd[i].value) }

  /**
   * Printing and reading back gives the same descriptor exactly when every value is non-empty, not all
   * dots, and made of digits, letters, `+`, `-`, `.` and `_`. The parser undoes no escapes.
   */
  lemma RoundTripIff(cd: Cd)
    requires Grammatical(cd)
    ensures UriMeaning(Print(cd)) == Some(cd) <==> SafeCd(cd)
  {
    hide ToUri, UriMeaning, Print;
    PrintedMeaning(cd);
    forall i | 0 <= i < |cd|
      ensures Printed(cd)[i] == cd[i] <==> cd[i].typ == CD_ASTERISK || SafeValue(cd[i].value)
    {
      ToUriPrintable(cd[i].value);
    }
    if SafeCd(cd) {
      assert Printed(cd) == cd;
    }
  }

  /** No two grammatical descriptors print alike, whatever bytes their values hold. */
  lemma PrintInjective(a: Cd, b: Cd)
    requires Grammatical(a) && Grammatical(b) && Print(a) == Print(b)
    ensures a == b
  {
    hide ToUri, UriMeaning, Print, FromUri;
    PrintedMeaning(a);
    PrintedMeaning(b);
    assert |a| == |Printed(a)| == |Printed(b)| == |b|;
    ShapedAsterisks(a);
    ShapedAsterisks(b);
    forall i | 0 <= i < |a|
      ensures a[i] == b[i]
    {
      assert Printed(a)[i] == Printed(b)[i];
      ToUriInvertible(a[i].value);
      ToUriInvertible(b[i].value);
    }
  }

  lemma ShapedAsterisks(cd: Cd)
    requires Grammatical(cd)
    ensures forall i :: 0 <= i < |cd| && cd[i].typ == CD_ASTERISK ==> cd[i] == ASTERISK
  {
    hide OpenAt, StarAt;
    if !Flat(cd) { ShapedTypes(cd, OpenAt(cd), StarAt(cd)); }
  }
}
